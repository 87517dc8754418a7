/**
  What the simulator records across iterations (the project durations, the
  critical paths, the criticality counters and the per-task duration
  histories), the bookkeeping of one iteration and of the whole loop, and the
  final conversion of counters to percentages.
*/
module SimulationRecords {
  import opened Wrappers
  import opened Seqs
  import opened TaskModel
  import opened ProjectNetwork
  import opened ForwardPass
  import opened NetworkCalculation

  /**
    A counter dictionary that remembers insertion order: `keys` lists each
    counted id once, in the order it was first counted.
  */
  datatype Tally = Tally(keys: seq<string>, counts: map<string, real>)

  predicate TallyValid(t: Tally) {
    Distinct(t.keys) && t.counts.Keys == set x | x in t.keys
  }

  /** A missing id counts as zero, as in a `defaultdict(int)`. */
  function Get(t: Tally, x: string): real {
    if x in t.counts then t.counts[x] else 0.0
  }

  /** Adds one to the counter of `x`, creating it at the end of the order when missing. */
  function Bump(t: Tally, x: string): (r: Tally)
    requires TallyValid(t)
    ensures TallyValid(r)
    ensures Get(r, x) == Get(t, x) + 1.0
    ensures forall y :: y != x ==> Get(r, y) == Get(t, y)
    ensures forall y :: y in r.counts <==> y in t.counts || y == x
  {
    if x in t.counts then Tally(t.keys, t.counts[x := t.counts[x] + 1.0])
    else Tally(t.keys + [x], t.counts[x := 1.0])
  }

  /** Bumps the counter of every id of `path`, left to right. */
  function BumpAll(t: Tally, path: seq<string>): (r: Tally)
    requires TallyValid(t)
    ensures TallyValid(r)
    decreases |path|
  {
    if |path| == 0 then t else BumpAll(Bump(t, path[0]), path[1..])
  }

  /** Each counter grows by the number of times its id occurs in the path; no other counter moves. */
  lemma {:induction false} BumpAllCounts(t: Tally, path: seq<string>)
    requires TallyValid(t)
    ensures forall y :: Get(BumpAll(t, path), y) == Get(t, y) + Count(path, y) as real
    ensures forall y :: y in BumpAll(t, path).counts <==> y in t.counts || y in path
    decreases |path|
  {
    if |path| > 0 {
      var t1 := Bump(t, path[0]);
      var r := BumpAll(t1, path[1..]);
      BumpAllCounts(t1, path[1..]);
      assert BumpAll(t, path) == r;
      assert path == [path[0]] + path[1..];
      forall y
        ensures Get(r, y) == Get(t, y) + Count(path, y) as real
        ensures y in r.counts <==> y in t.counts || y in path
      {
        assert Count(path, y) == (if path[0] == y then 1 else 0) + Count(path[1..], y);
        assert y in path <==> y == path[0] || y in path[1..];
      }
    }
  }

  /** A duration history; a missing id has an empty one, as in a `defaultdict(list)`. */
  function History(h: map<string, seq<real>>, x: string): seq<real> {
    if x in h then h[x] else []
  }

  /** Appends each listed task's current duration to its history. */
  function AppendDurations(h: map<string, seq<real>>, order: seq<string>, tasks: map<string, Task>)
    : (r: map<string, seq<real>>)
    requires forall i :: 0 <= i < |order| ==> order[i] in tasks
    requires Distinct(order)
    ensures forall x :: x in order ==> x in r && r[x] == History(h, x) + [tasks[x].duration]
    ensures forall x :: x !in order ==> (x in r <==> x in h) && History(r, x) == History(h, x)
    decreases |order|
  {
    if |order| == 0 then h
    else
      var x := order[0];
      var r := AppendDurations(h[x := History(h, x) + [tasks[x].duration]], order[1..], tasks);
      assert x !in order[1..];
      r
  }

  /** Everything the simulator records across iterations. */
  datatype Results = Results(
    durations: seq<real>,
    criticalPaths: seq<seq<string>>,
    criticality: Tally,
    taskDurations: map<string, seq<real>>)

  /** The results of a simulator that has not run yet. */
  function EmptyResults(): (r: Results)
    ensures r.durations == [] && r.criticalPaths == [] && r.taskDurations == map[]
    ensures TallyValid(r.criticality) && r.criticality.counts == map[]
  {
    Results([], [], Tally([], map[]), map[])
  }

  /**
    The simulator: the network once a project is loaded (constructed and
    validated, hence well formed), the results so far, and the configured run count.
  */
  datatype Simulator = Simulator(network: Option<Network>, results: Results, runs: int)

  predicate SimulatorValid(sim: Simulator) {
    && (sim.network.Some? ==> WellFormed(sim.network.value))
    && TallyValid(sim.results.criticality)
  }

  datatype SimError = NetworkNotLoaded | Calculation(cause: CpmError) | DivisionByZero

  /** What one iteration reports, with the simulator as it leaves it. */
  datatype Outcome = Outcome(sim: Simulator, projectDuration: real, criticalPath: seq<string>)

  /** Records one calculated iteration. */
  function Record(res: Results, c: Calculated): (r: Results)
    requires TallyValid(res.criticality)
    requires forall i :: 0 <= i < |c.network.order| ==> c.network.order[i] in c.network.tasks
    requires Distinct(c.network.order)
    ensures TallyValid(r.criticality)
  {
    Results(res.durations + [c.summary.projectDuration],
            res.criticalPaths + [c.summary.criticalPath],
            BumpAll(res.criticality, c.summary.criticalPath),
            AppendDurations(res.taskDurations, c.network.order, c.network.tasks))
  }

  /** Recording a calculation of the freshly sampled network meets `IterationRecorded`. */
  lemma IterationFacts(sim: Simulator, draws: map<string, real>, c: Calculated)
    requires SimulatorValid(sim)
    requires sim.network.Some? && sim.network.value.tasks.Keys <= draws.Keys
    requires var net := GenerateAllDurations(sim.network.value, draws);
      && c.network.order == net.order
      && SameStructure(c.network.tasks, net.tasks)
      && (forall k :: k in net.tasks ==> c.network.tasks[k].duration == net.tasks[k].duration)
      && Distinct(c.summary.criticalPath)
      && (forall x :: x in c.summary.criticalPath <==> x in net.tasks && c.network.tasks[x].isCritical)
    ensures IterationRecorded(sim, draws, Outcome(Simulator(Some(c.network), Record(sim.results, c), sim.runs),
                                                  c.summary.projectDuration, c.summary.criticalPath))
  {
    var net0 := sim.network.value;
    var net := GenerateAllDurations(net0, draws);
    SameStructureWellFormed(net0, c.network.tasks);
    assert WellFormed(c.network) by {
      assert net0.(tasks := c.network.tasks).order == c.network.order;
    }
    DistinctBumps(sim.results.criticality, c.summary.criticalPath);
  }

  /** Bumping a path without repeats adds one to each of its ids and creates the missing ones. */
  lemma DistinctBumps(t: Tally, cp: seq<string>)
    requires TallyValid(t) && Distinct(cp)
    ensures forall y :: Get(BumpAll(t, cp), y) == Get(t, y) + (if y in cp then 1.0 else 0.0)
    ensures forall y :: y in BumpAll(t, cp).counts <==> y in t.counts || y in cp
  {
    BumpAllCounts(t, cp);
    forall y | true
      ensures Count(cp, y) as real == (if y in cp then 1.0 else 0.0)
    {
      DistinctCount(cp, y);
    }
  }

  /** In a sequence without repeats an element occurs at most once. */
  lemma {:induction false} DistinctCount(s: seq<string>, x: string)
    requires Distinct(s)
    ensures Count(s, x) == if x in s then 1 else 0
  {
    if |s| > 0 {
      DistinctCount(s[1..], x);
      assert s[0] !in s[1..];
    }
  }

  /**
    What a successful iteration leaves behind: the network keeps its order and
    structure; exactly one duration and one critical path are appended; each
    id of the (repeat-free) path gains one count and no other counter moves;
    every task's history gains its freshly sampled duration and no other
    history changes.
  */
  ghost predicate IterationRecorded(sim: Simulator, draws: map<string, real>, o: Outcome)
    requires sim.network.Some? && sim.network.value.tasks.Keys <= draws.Keys
  {
    var net0 := sim.network.value;
    var sampled := GenerateAllDurations(net0, draws).tasks;
    var res0 := sim.results;
    var res := o.sim.results;
    && o.sim.network.Some?
    && WellFormed(o.sim.network.value)
    && o.sim.network.value.order == net0.order
    && SameStructure(o.sim.network.value.tasks, net0.tasks)
    && o.sim.runs == sim.runs
    && res.durations == res0.durations + [o.projectDuration]
    && res.criticalPaths == res0.criticalPaths + [o.criticalPath]
    && Distinct(o.criticalPath)
    && (forall x :: x in o.criticalPath ==> x in net0.tasks && o.sim.network.value.tasks[x].isCritical)
    && TallyValid(res.criticality)
    && (forall y :: Get(res.criticality, y) == Get(res0.criticality, y) + (if y in o.criticalPath then 1.0 else 0.0))
    && (forall y :: y in res.criticality.counts <==> y in res0.criticality.counts || y in o.criticalPath)
    && (forall k :: k in net0.tasks ==>
          k in res.taskDurations && res.taskDurations[k] == History(res0.taskDurations, k) + [sampled[k].duration])
    && (forall k :: k !in net0.tasks ==>
          (k in res.taskDurations <==> k in res0.taskDurations) && History(res.taskDurations, k) == History(res0.taskDurations, k))
  }

  // ---- the simulation loop ----

  /** Number of recorded critical paths that contain `x`. */
  function Occurrences(paths: seq<seq<string>>, x: string): (n: nat)
    ensures n <= |paths|
  {
    if |paths| == 0 then 0
    else Occurrences(paths[..|paths| - 1], x) + (if x in paths[|paths| - 1] then 1 else 0)
  }

  /** The durations task `t` receives, iteration by iteration, from the draws `ds`. */
  function Sampled(t: Task, ds: seq<map<string, real>>, k: string): (h: seq<real>)
    requires forall j :: 0 <= j < |ds| ==> k in ds[j]
    ensures |h| == |ds|
  {
    if |ds| == 0 then []
    else Sampled(t, ds[..|ds| - 1], k) + [ResetAndSample(t, ds[|ds| - 1][k]).duration]
  }

  /** `count / runs * 100`. */
  function Percentage(count: real, runs: int): real
    requires runs != 0
  {
    count / runs as real * 100.0
  }

  /** A count of at most `n` out of `n > 0` runs is a percentage within [0, 100]. */
  lemma PercentageBounds(c: real, n: int)
    requires n > 0 && 0.0 <= c <= n as real
    ensures 0.0 <= Percentage(c, n) <= 100.0
  {
    var q := c / n as real;
    assert q * n as real == c;
    assert q <= 1.0;
  }

  /**
    The percentage conversion at the end of a run: every counter becomes
    `count / runs * 100`. With no runs and some counter present the division fails.
  */
  function ToPercentages(t: Tally, runs: int): (r: Result<Tally, SimError>)
    requires TallyValid(t)
    ensures r.Failure? <==> runs == 0 && |t.keys| > 0
    ensures r.Success? ==> TallyValid(r.value) && r.value.keys == t.keys
    ensures r.Success? && runs != 0 ==> forall x :: x in t.counts ==>
              r.value.counts[x] == Percentage(t.counts[x], runs)
  {
    if runs == 0 && |t.keys| > 0 then Failure(DivisionByZero)
    else
      assert runs == 0 ==> t.counts == map[] by {
        if runs == 0 {
          assert t.counts.Keys == {};
        }
      }
      Success(Tally(t.keys, map x | x in t.counts :: t.counts[x] / runs as real * 100.0))
  }

  /**
    What a completed run of `n > 0` iterations from empty results leaves
    behind: one duration and one critical path per iteration; every task's
    history holds exactly its `n` sampled durations; an id has a criticality
    entry exactly when it was critical in some iteration, and that entry is the
    percentage of iterations in which it was, hence within [0, 100].
  */
  ghost predicate SimulationSummary(net0: Network, draws: seq<map<string, real>>, s: Simulator)
    requires forall j, k :: 0 <= j < |draws| && k in net0.tasks ==> k in draws[j]
  {
    && SummaryShape(net0, |draws|, s)
    && SummaryHistories(net0, draws, s.results)
    && SummaryCounts(s.results, |draws|)
  }

  /** The network is kept, and one duration and one critical path were recorded per iteration. */
  ghost predicate SummaryShape(net0: Network, n: nat, s: Simulator) {
    var paths := s.results.criticalPaths;
    && s.network.Some?
    && s.network.value.order == net0.order
    && SameStructure(s.network.value.tasks, net0.tasks)
    && |s.results.durations| == n
    && |paths| == n
    && (forall j :: 0 <= j < n ==> Distinct(paths[j]) && forall x :: x in paths[j] ==> x in net0.tasks)
  }

  /** Every task's history holds exactly its sampled durations. */
  ghost predicate SummaryHistories(net0: Network, draws: seq<map<string, real>>, res: Results)
    requires forall j, k :: 0 <= j < |draws| && k in net0.tasks ==> k in draws[j]
  {
    && res.taskDurations.Keys == net0.tasks.Keys
    && (forall k :: k in net0.tasks ==> res.taskDurations[k] == Sampled(net0.tasks[k], draws, k))
  }

  /** The criticality entries are the percentages of the `n` recorded paths that contain each id. */
  ghost predicate SummaryCounts(res: Results, n: nat) {
    var paths := res.criticalPaths;
    && |paths| == n
    && TallyValid(res.criticality)
    && (forall x :: x in res.criticality.counts <==> Occurrences(paths, x) > 0)
    && (forall x :: x in res.criticality.counts ==>
          res.criticality.counts[x] == Percentage(Occurrences(paths, x) as real, n))
    && (forall x :: x in res.criticality.counts ==> 0.0 <= res.criticality.counts[x] <= 100.0)
  }

  lemma OccurrencesSnoc(paths: seq<seq<string>>, p: seq<string>, y: string)
    ensures Occurrences(paths + [p], y) == Occurrences(paths, y) + (if y in p then 1 else 0)
  {
    assert (paths + [p])[..|paths|] == paths;
  }

  lemma SampledSnoc(t: Task, ds: seq<map<string, real>>, i: nat, k: string)
    requires i < |ds|
    requires forall j :: 0 <= j < |ds| ==> k in ds[j]
    ensures Sampled(t, ds[..i + 1], k) == Sampled(t, ds[..i], k) + [ResetAndSample(t, ds[i][k]).duration]
  {
    assert ds[..i + 1][..i] == ds[..i];
  }

  /** The loop's structural bookkeeping after `i` iterations. */
  ghost predicate LoopShape(net0: Network, r0: Results, cur: Simulator, recent: seq<seq<string>>, i: nat) {
    var res := cur.results;
    && SimulatorValid(cur)
    && cur.network.Some?
    && cur.network.value.order == net0.order
    && SameStructure(cur.network.value.tasks, net0.tasks)
    && |res.durations| == |r0.durations| + i
    && res.criticalPaths == r0.criticalPaths + recent
    && |recent| == i
    && (forall j :: 0 <= j < i ==> Distinct(recent[j]) && forall x :: x in recent[j] ==> x in net0.tasks)
  }

  /** The criticality counters after the iterations whose paths are `recent`. */
  ghost predicate LoopCounts(r0: Results, res: Results, recent: seq<seq<string>>) {
    && (forall y :: Get(res.criticality, y) == Get(r0.criticality, y) + Occurrences(recent, y) as real)
    && (forall y :: y in res.criticality.counts <==> y in r0.criticality.counts || Occurrences(recent, y) > 0)
  }

  /** The duration histories after `i` iterations. */
  ghost predicate LoopHistories(net0: Network, draws: seq<map<string, real>>, r0: Results, res: Results, i: nat)
    requires i <= |draws|
    requires forall j, k :: 0 <= j < |draws| && k in net0.tasks ==> k in draws[j]
  {
    && (forall k :: k in net0.tasks ==>
          History(res.taskDurations, k) == History(r0.taskDurations, k) + Sampled(net0.tasks[k], draws[..i], k))
    && (forall k :: k in net0.tasks && i > 0 ==> k in res.taskDurations)
    && (forall k :: k !in net0.tasks ==>
          (k in res.taskDurations <==> k in r0.taskDurations) && History(res.taskDurations, k) == History(r0.taskDurations, k))
  }

  /** The loop's bookkeeping after `i` iterations, relative to the results `r0` it started from. */
  ghost predicate LoopInvariant(net0: Network, draws: seq<map<string, real>>, r0: Results,
                                cur: Simulator, recent: seq<seq<string>>, i: nat)
    requires i <= |draws|
    requires forall j, k :: 0 <= j < |draws| && k in net0.tasks ==> k in draws[j]
  {
    && LoopShape(net0, r0, cur, recent, i)
    && LoopCounts(r0, cur.results, recent)
    && LoopHistories(net0, draws, r0, cur.results, i)
  }

  lemma CountsStep(r0: Results, res: Results, res': Results, recent: seq<seq<string>>, p: seq<string>)
    requires LoopCounts(r0, res, recent)
    requires forall y :: Get(res'.criticality, y) == Get(res.criticality, y) + (if y in p then 1.0 else 0.0)
    requires forall y :: y in res'.criticality.counts <==> y in res.criticality.counts || y in p
    ensures LoopCounts(r0, res', recent + [p])
  {
    forall y | true
      ensures Occurrences(recent + [p], y) == Occurrences(recent, y) + (if y in p then 1 else 0)
    {
      OccurrencesSnoc(recent, p, y);
    }
  }

  lemma HistoriesStep(net0: Network, draws: seq<map<string, real>>, r0: Results, cur: Simulator,
                      res': Results, i: nat)
    requires i < |draws|
    requires forall j, k :: 0 <= j < |draws| && k in net0.tasks ==> k in draws[j]
    requires LoopHistories(net0, draws, r0, cur.results, i)
    requires cur.network.Some? && SameStructure(cur.network.value.tasks, net0.tasks)
    requires cur.network.value.tasks.Keys <= draws[i].Keys
    requires forall k :: k in net0.tasks ==>
               k in res'.taskDurations && res'.taskDurations[k] == History(cur.results.taskDurations, k)
                 + [GenerateAllDurations(cur.network.value, draws[i]).tasks[k].duration]
    requires forall k :: k !in net0.tasks ==>
               (k in res'.taskDurations <==> k in cur.results.taskDurations)
               && History(res'.taskDurations, k) == History(cur.results.taskDurations, k)
    ensures LoopHistories(net0, draws, r0, res', i + 1)
  {
    var net := cur.network.value;
    forall k | k in net0.tasks
      ensures History(res'.taskDurations, k)
              == History(r0.taskDurations, k) + Sampled(net0.tasks[k], draws[..i + 1], k)
    {
      SampledAt(net, draws[i], k);
      HistoryStepAt(net0.tasks[k], net.tasks[k], draws, i, k, History(r0.taskDurations, k),
                    History(cur.results.taskDurations, k), History(res'.taskDurations, k));
    }
  }

  lemma SampledAt(net: Network, draws: map<string, real>, k: string)
    requires net.tasks.Keys <= draws.Keys && k in net.tasks
    ensures GenerateAllDurations(net, draws).tasks[k] == ResetAndSample(net.tasks[k], draws[k])
  {
  }

  lemma HistoryStepAt(t0: Task, t: Task, ds: seq<map<string, real>>, i: nat, k: string,
                      h0: seq<real>, h: seq<real>, h': seq<real>)
    requires i < |ds|
    requires forall j :: 0 <= j < |ds| ==> k in ds[j]
    requires SameEstimate(t, t0)
    requires h == h0 + Sampled(t0, ds[..i], k)
    requires h' == h + [ResetAndSample(t, ds[i][k]).duration]
    ensures h' == h0 + Sampled(t0, ds[..i + 1], k)
  {
    assert ResetAndSample(t, ds[i][k]).duration == ResetAndSample(t0, ds[i][k]).duration;
    SampledSnoc(t0, ds, i, k);
  }

  /** Before the first iteration the bookkeeping holds trivially. */
  lemma LoopStart(net0: Network, draws: seq<map<string, real>>, sim: Simulator)
    requires SimulatorValid(sim) && sim.network == Some(net0)
    requires forall j, k :: 0 <= j < |draws| && k in net0.tasks ==> k in draws[j]
    ensures LoopInvariant(net0, draws, sim.results, sim, [], 0)
  {
    assert draws[..0] == [];
  }

  /** One more recorded iteration extends the loop's bookkeeping. */
  lemma LoopStep(net0: Network, draws: seq<map<string, real>>, r0: Results,
                 cur: Simulator, recent: seq<seq<string>>, i: nat, o: Outcome)
    requires i < |draws|
    requires forall j, k :: 0 <= j < |draws| && k in net0.tasks ==> k in draws[j]
    requires LoopInvariant(net0, draws, r0, cur, recent, i)
    requires cur.network.value.tasks.Keys <= draws[i].Keys
    requires IterationRecorded(cur, draws[i], o)
    ensures LoopInvariant(net0, draws, r0, o.sim, recent + [o.criticalPath], i + 1)
  {
    CountsStep(r0, cur.results, o.sim.results, recent, o.criticalPath);
    HistoriesStep(net0, draws, r0, cur, o.sim.results, i);
    assert LoopShape(net0, r0, o.sim, recent + [o.criticalPath], i + 1) by {
      var recent' := recent + [o.criticalPath];
      assert forall j :: 0 <= j < i ==> recent'[j] == recent[j];
    }
  }

  /** From empty results, the loop's bookkeeping and the conversion give `SimulationSummary`. */
  lemma FreshSummary(net0: Network, draws: seq<map<string, real>>, cur: Simulator,
                     recent: seq<seq<string>>, pct: Tally)
    requires |draws| > 0
    requires forall j, k :: 0 <= j < |draws| && k in net0.tasks ==> k in draws[j]
    requires LoopInvariant(net0, draws, EmptyResults(), cur, recent, |draws|)
    requires draws[..|draws|] == draws
    requires TallyValid(pct) && pct.keys == cur.results.criticality.keys
    requires forall x :: x in cur.results.criticality.counts ==>
               pct.counts[x] == Percentage(cur.results.criticality.counts[x], |draws|)
    ensures SimulationSummary(net0, draws, cur.(results := cur.results.(criticality := pct)))
  {
    var res := cur.results;
    assert LoopShape(net0, EmptyResults(), cur, recent, |draws|);
    assert res.criticalPaths == recent;
    assert LoopCounts(EmptyResults(), res, recent);
    assert forall y :: Get(res.criticality, y) == Occurrences(recent, y) as real;
    PercentageFacts(res.criticality, pct, recent, |draws|);
    FreshHistories(net0, draws, cur, recent);
  }

  /** From empty results, the histories after the last iteration are the sampled durations. */
  lemma FreshHistories(net0: Network, draws: seq<map<string, real>>, cur: Simulator, recent: seq<seq<string>>)
    requires |draws| > 0
    requires forall j, k :: 0 <= j < |draws| && k in net0.tasks ==> k in draws[j]
    requires LoopInvariant(net0, draws, EmptyResults(), cur, recent, |draws|)
    requires draws[..|draws|] == draws
    ensures SummaryHistories(net0, draws, cur.results)
  {
    var res := cur.results;
    assert LoopHistories(net0, draws, EmptyResults(), res, |draws|);
    forall k | k in net0.tasks
      ensures k in res.taskDurations && res.taskDurations[k] == Sampled(net0.tasks[k], draws, k)
    {
    }
    assert LoopShape(net0, EmptyResults(), cur, recent, |draws|);
  }

  /** From counts equal to the occurrences of `n > 0` paths, the conversion gives their percentages. */
  lemma PercentageFacts(counts: Tally, pct: Tally, paths: seq<seq<string>>, n: nat)
    requires |paths| == n > 0
    requires TallyValid(counts) && TallyValid(pct) && pct.keys == counts.keys
    requires forall y :: Get(counts, y) == Occurrences(paths, y) as real
    requires forall y :: y in counts.counts <==> Occurrences(paths, y) > 0
    requires forall x :: x in counts.counts ==> pct.counts[x] == Percentage(counts.counts[x], n)
    ensures forall x :: x in pct.counts <==> Occurrences(paths, x) > 0
    ensures forall x :: x in pct.counts ==> pct.counts[x] == Percentage(Occurrences(paths, x) as real, n)
    ensures forall x :: x in pct.counts ==> 0.0 <= pct.counts[x] <= 100.0
  {
    assert pct.counts.Keys == counts.counts.Keys;
    forall x | x in pct.counts
      ensures pct.counts[x] == Percentage(Occurrences(paths, x) as real, n)
      ensures 0.0 <= pct.counts[x] <= 100.0
    {
      assert x in counts.counts;
      assert counts.counts[x] == Get(counts, x);
      PercentageBounds(Occurrences(paths, x) as real, n);
    }
  }

}

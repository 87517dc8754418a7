/**
  `run_simulation` end to end: the simulation loop, the percentage
  conversion, and the analysis of the results it leaves behind.
*/
module Report {
  import opened Wrappers
  import opened ProjectNetwork
  import opened SimulationRecords
  import opened Simulation
  import opened Analytics

  datatype ReportError = SimulationFailed(simError: SimError) | AnalysisFailed(analysisError: AnalysisError)

  /** The simulator after the run and the analysis it returns. */
  datatype Report = Report(sim: Simulator, analysis: Analysis)

  /**
    Runs the simulation, then analyses it. From empty results on a loaded,
    nonempty network with a positive run count, only a confidence level
    outside [-1, 1] can make it fail; the report then covers every run, and
    every reported critical task was critical in more than half of the runs
    and in at most all of them.
  */
  method RunSimulationReport(sim: Simulator, draws: seq<map<string, real>>, levels: seq<real>)
    returns (r: Result<Report, ReportError>)
    requires SimulatorValid(sim)
    requires |draws| == if sim.runs > 0 then sim.runs else 0
    requires sim.network.Some? ==>
               forall j, k :: 0 <= j < |draws| && k in sim.network.value.tasks ==> k in draws[j]
    ensures (r.Failure? && r.error.SimulationFailed?) <==>
              || sim.network.None?
              || (sim.runs > 0 && |sim.network.value.order| == 0)
              || (sim.runs == 0 && |sim.results.criticality.keys| > 0)
    ensures sim.network.Some? && |sim.network.value.order| > 0 && sim.runs > 0 && sim.results == EmptyResults() ==>
              (r.Success? <==> forall i :: 0 <= i < |levels| ==> -1.0 <= levels[i] <= 1.0)
    ensures r.Success? && sim.runs > 0 && sim.results == EmptyResults() ==>
              && r.value.analysis.runs == sim.runs
              && r.value.analysis.totalTasks == |sim.network.value.tasks|
              && |r.value.analysis.intervals| == |levels|
              && forall c :: c in r.value.analysis.criticalTasks ==> CriticalThreshold < c.criticality <= 100.0
  {
    var s := RunSimulation(sim, draws);
    if s.Failure? {
      return Failure(SimulationFailed(s.error));
    }
    var after := s.value;
    if sim.results == EmptyResults() && sim.runs > 0 {
      AnalyzeCompletedRun(sim.network.value, draws, after, levels);
    }
    var a := Analyze(after, levels);
    if a.Failure? {
      return Failure(AnalysisFailed(a.error));
    }
    r := Success(Report(after, a.value));
  }

  /** The analysis of a completed run from empty results. */
  lemma AnalyzeCompletedRun(net0: Network, draws: seq<map<string, real>>, s: Simulator, levels: seq<real>)
    requires |draws| > 0
    requires forall j, k :: 0 <= j < |draws| && k in net0.tasks ==> k in draws[j]
    requires SimulationSummary(net0, draws, s)
    ensures Analyze(s, levels).Success? <==> forall i :: 0 <= i < |levels| ==> -1.0 <= levels[i] <= 1.0
    ensures Analyze(s, levels).Success? ==>
              && Analyze(s, levels).value.totalTasks == |net0.tasks|
              && forall c :: c in Analyze(s, levels).value.criticalTasks ==> c.criticality <= 100.0
  {
    CountedIdsAreTasks(net0, draws, s);
    var a := Analyze(s, levels);
    if a.Success? {
      forall c | c in a.value.criticalTasks
        ensures c.criticality <= 100.0
      {
        assert c.id in s.results.criticality.counts;
      }
    }
  }

  /**
    After a completed run from empty results every counted id is a task of
    the network, the results hold at least one duration, and the counters are
    percentages.
  */
  lemma CountedIdsAreTasks(net0: Network, draws: seq<map<string, real>>, s: Simulator)
    requires |draws| > 0
    requires forall j, k :: 0 <= j < |draws| && k in net0.tasks ==> k in draws[j]
    requires SimulationSummary(net0, draws, s)
    ensures forall x :: x in s.results.criticality.keys ==> x in Tasks(s)
    ensures |s.results.durations| > 0 && |Tasks(s)| == |net0.tasks|
    ensures forall x :: x in s.results.criticality.counts ==> Get(s.results.criticality, x) <= 100.0
  {
    var paths := s.results.criticalPaths;
    forall x | x in s.results.criticality.keys
      ensures x in Tasks(s)
    {
      assert x in s.results.criticality.counts;
      var j := OccurrenceWitness(paths, x);
      assert x in paths[j];
    }
    assert Tasks(s).Keys == net0.tasks.Keys;
  }

  /** An id that occurs in some recorded path: the position of one such path. */
  lemma {:induction false} OccurrenceWitness(paths: seq<seq<string>>, x: string) returns (j: nat)
    requires Occurrences(paths, x) > 0
    ensures j < |paths| && x in paths[j]
  {
    var last := |paths| - 1;
    if x in paths[last] {
      j := last;
    } else {
      j := OccurrenceWitness(paths[..last], x);
    }
  }
}

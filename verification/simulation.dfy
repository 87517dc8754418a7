/**
  The simulation loop: each iteration samples every task's duration, runs the
  network calculation, and records the project duration, the critical path,
  how often each task was critical, and each task's duration history. After
  the last iteration the criticality counts become percentages of the run count.
  The random draws of each iteration are a parameter: one Beta draw per task id.
*/
module Simulation {
  import opened Wrappers
  import opened ProjectNetwork
  import opened ForwardPass
  import opened NetworkCalculation
  import opened SimulationRecords

  /**
    The outcome records `calculated`, the calculation as written on
    `sampled`: the backward pass, in dictionary order, over the forward
    pass's result `fw`.
  */
  ghost predicate AsWritten(sampled: Network, fw: Network, processed: seq<string>, calculated: Calculated, o: Outcome) {
    && WellFormed(sampled) && FinishedFrom(sampled, fw, processed, sampled.order, calculated)
    && o.sim.network == Some(calculated.network)
    && o.projectDuration == calculated.summary.projectDuration && o.criticalPath == calculated.summary.criticalPath
  }

  /**
    One iteration: resample every task from `draws`, calculate the network
    and record the outcome. Sampling and calculation are the members as
    written: a degenerate task is scheduled with duration 0, and the
    backward pass visits the tasks in dictionary order. The ghost outputs
    name the forward pass's result and the calculation that is recorded.
    Without a loaded network, or on an empty one, nothing is recorded.
  */
  method RunSingleIteration(sim: Simulator, draws: map<string, real>)
    returns (r: Result<Outcome, SimError>, ghost fw: Network, ghost processed: seq<string>, ghost calculated: Calculated)
    requires SimulatorValid(sim)
    requires sim.network.Some? ==> sim.network.value.tasks.Keys <= draws.Keys
    ensures r.Failure? <==> sim.network.None? || |sim.network.value.order| == 0
    ensures sim.network.None? ==> r == Failure(NetworkNotLoaded)
    ensures r.Failure? && sim.network.Some? ==> r == Failure(Calculation(EmptyNetwork))
    ensures r.Success? ==> IterationRecorded(sim, draws, r.value)
    ensures r.Success? ==> AsWritten(GenerateAllDurations(sim.network.value, draws), fw, processed, calculated, r.value)
  {
    if sim.network.None? {
      var none := Network([], map[], 0.0);
      return Failure(NetworkNotLoaded), none, [], Calculated(none, Summary(0.0, [], 0, 0));
    }
    var net0 := sim.network.value;
    var net := GenerateAllDurations(net0, draws);
    SameStructureWellFormed(net0, net.tasks);
    var cr;
    cr, processed, fw := CalculateNetwork(net);
    if cr.Failure? {
      assert cr.error == EmptyNetwork;
      return Failure(Calculation(cr.error)), fw, processed, Calculated(net, Summary(0.0, [], 0, 0));
    }
    var c := cr.value;
    calculated := c;
    IterationFacts(sim, draws, c);
    r := Success(Outcome(Simulator(Some(c.network), Record(sim.results, c), sim.runs),
                         c.summary.projectDuration, c.summary.criticalPath));
  }

  /** One iteration of the loop, which extends its bookkeeping. */
  method Iterate(net0: Network, draws: seq<map<string, real>>, r0: Results,
                 cur: Simulator, ghost recent: seq<seq<string>>, i: nat) returns (o: Result<Outcome, SimError>)
    requires i < |draws|
    requires forall j, k :: 0 <= j < |draws| && k in net0.tasks ==> k in draws[j]
    requires LoopInvariant(net0, draws, r0, cur, recent, i)
    ensures o.Failure? <==> |net0.order| == 0
    ensures o.Success? ==> o.value.sim.runs == cur.runs
    ensures o.Success? ==> LoopInvariant(net0, draws, r0, o.value.sim, recent + [o.value.criticalPath], i + 1)
  {
    var res, _, _, _ := RunSingleIteration(cur, draws[i]);
    o := res;
    if o.Success? {
      LoopStep(net0, draws, r0, cur, recent, i, o.value);
    }
  }

  /**
    The loop of `run_simulation`: one iteration per draw map. It stops at the
    first failure, which happens exactly when an iteration runs on an empty network.
    The bookkeeping predicate is compared with `true` in the contract and the
    invariant so that it is carried as one fact instead of conjunct by conjunct.
  */
  method RunIterations(sim: Simulator, draws: seq<map<string, real>>)
    returns (r: Result<Simulator, SimError>, ghost recent: seq<seq<string>>)
    requires SimulatorValid(sim) && sim.network.Some?
    requires forall j, k :: 0 <= j < |draws| && k in sim.network.value.tasks ==> k in draws[j]
    ensures r.Failure? <==> |draws| > 0 && |sim.network.value.order| == 0
    ensures |draws| == 0 ==> r == Success(sim)
    ensures r.Success? ==> r.value.runs == sim.runs
    ensures r.Success? ==> LoopInvariant(sim.network.value, draws, sim.results, r.value, recent, |draws|) == true
  {
    var net0 := sim.network.value;
    var cur := sim;
    recent := [];
    var i := 0;
    assert draws[..0] == [];
    LoopStart(net0, draws, sim);
    while i < |draws|
      invariant 0 <= i <= |draws|
      invariant LoopInvariant(net0, draws, sim.results, cur, recent, i) == true
      invariant cur.runs == sim.runs
      invariant i > 0 ==> |net0.order| > 0
      invariant i == 0 ==> cur == sim
    {
      var o := Iterate(net0, draws, sim.results, cur, recent, i);
      if o.Failure? {
        return Failure(o.error), recent;
      }
      recent := recent + [o.value.criticalPath];
      cur := o.value.sim;
      i := i + 1;
    }
    r := Success(cur);
  }

  /**
    `run_simulation`: `runs` iterations (none when the configured count is not
    positive), then the percentage conversion. It fails without a loaded
    network, on an empty network as soon as an iteration runs, and when no run
    is configured while counters exist.
  */
  method RunSimulation(sim: Simulator, draws: seq<map<string, real>>) returns (r: Result<Simulator, SimError>)
    requires SimulatorValid(sim)
    requires |draws| == if sim.runs > 0 then sim.runs else 0
    requires sim.network.Some? ==>
               forall j, k :: 0 <= j < |draws| && k in sim.network.value.tasks ==> k in draws[j]
    ensures r.Failure? <==>
              || sim.network.None?
              || (sim.runs > 0 && |sim.network.value.order| == 0)
              || (sim.runs == 0 && |sim.results.criticality.keys| > 0)
    ensures r.Success? ==> r.value.runs == sim.runs
    ensures r.Success? && sim.results == EmptyResults() && sim.runs > 0 ==>
              SimulationSummary(sim.network.value, draws, r.value)
  {
    if sim.network.None? {
      return Failure(NetworkNotLoaded);
    }
    var it, recent := RunIterations(sim, draws);
    if it.Failure? {
      return Failure(it.error);
    }
    var cur := it.value;
    var pct := ToPercentages(cur.results.criticality, sim.runs);
    if pct.Failure? {
      return Failure(pct.error);
    }
    r := Success(cur.(results := cur.results.(criticality := pct.value)));
    if sim.results == EmptyResults() && sim.runs > 0 {
      assert draws[..|draws|] == draws;
      FreshSummary(sim.network.value, draws, cur, recent, pct.value);
    }
  }

}

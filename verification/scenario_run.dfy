/**
  The three-task example run through the whole calculation: the network
  as sampling leaves it goes through the forward pass and then the
  backward pass, once in dictionary order and once in reverse processing order.
*/
module ScenarioRun {
  import opened Wrappers
  import opened Seqs
  import opened TaskModel
  import opened ProjectNetwork
  import opened CycleCheck
  import opened ForwardPass
  import opened Backward
  import opened NetworkCalculation
  import opened Scenario

  /**
    The network handed to one calculation: the three tasks listed a, b, c,
    with the durations 2, 3 and 1 already sampled and the late starts reset.
  */
  ghost predicate SampledExample(net: Network, a: string, b: string, c: string) {
    && WellFormed(net) && net.order == [a, b, c]
    && a in net.tasks && b in net.tasks && c in net.tasks
    && (forall k :: k in net.tasks ==> net.tasks[k].lateStart == 0.0)
    && net.tasks[a].predecessors == [] && net.tasks[a].successors == [b, c] && net.tasks[a].duration == 2.0
    && net.tasks[b].predecessors == [a] && net.tasks[b].successors == [] && net.tasks[b].duration == 3.0
    && net.tasks[c].predecessors == [a] && net.tasks[c].successors == [] && net.tasks[c].duration == 1.0
  }

  /** The example has no dangling predecessor and no cycle: a ranks above b and c. */
  lemma SampledExampleAcyclic(net: Network, a: string, b: string, c: string)
    requires SampledExample(net, a, b, c)
    ensures PredecessorsKnown(net) && !HasCycle(net)
  {
    var rank := map[a := 1, b := 0, c := 0];
    assert forall k :: k in net.tasks ==> k in net.order;
    RankedAcyclic(net, rank);
  }

  /** Whatever the processing order, the forward pass gives a [0, 2], b [2, 5], c [2, 3] and a project of 5. */
  lemma SampledExampleForward(net: Network, fw: Network, processed: seq<string>, a: string, b: string, c: string)
    requires SampledExample(net, a, b, c)
    requires ForwardResult(net, fw, processed)
    requires forall k :: k in net.tasks ==> k in processed
    ensures Example(fw.tasks, a, b, c) && fw.projectDuration == 5.0
  {
    var t := fw.tasks;
    assert t.Keys == {a, b, c} by {
      assert forall k :: k in net.tasks ==> k in net.order;
    }
    assert OnlyEarlyTimesChanged(t[a], net.tasks[a]) && Scheduled(t, a);
    assert Shaped(t[a], [], [b, c], 2.0, 0.0);
    assert MaxEarlyFinish(t, [a]) == 2.0;
    assert OnlyEarlyTimesChanged(t[b], net.tasks[b]) && Scheduled(t, b);
    assert Shaped(t[b], [a], [], 3.0, 2.0);
    assert OnlyEarlyTimesChanged(t[c], net.tasks[c]) && Scheduled(t, c);
    assert Shaped(t[c], [a], [], 1.0, 2.0);
    var k :| k in net.tasks && t[k].earlyFinish == fw.projectDuration;
    assert t[b].earlyFinish <= fw.projectDuration;
  }

  /**
    `calculate_network` as written, run on the example: the calculation
    succeeds, a is left with late finish 0 and float -2, and the reported
    critical path is b alone.
  */
  method CalculateSampledExample(net: Network, a: string, b: string, c: string) returns (r: Result<Calculated, CpmError>)
    requires SampledExample(net, a, b, c)
    ensures r.Success? && a in r.value.network.tasks
    ensures r.value.network.tasks[a].lateFinish == 0.0 && r.value.network.tasks[a].totalFloat == -2.0
    ensures r.value.summary.criticalPath == [b]
  {
    SampledExampleAcyclic(net, a, b, c);
    var processed;
    ghost var fw;
    r, processed, fw := CalculateNetwork(net);
    DictionaryOrderOnExample(net, fw, processed, r.value, a, b, c);
  }

  /** Finishing the example's forward pass in dictionary order leaves a with float -2 and reports b alone. */
  lemma DictionaryOrderOnExample(net: Network, fw: Network, processed: seq<string>, out: Calculated,
                                 a: string, b: string, c: string)
    requires SampledExample(net, a, b, c)
    requires FinishedFrom(net, fw, processed, net.order, out)
    requires forall k :: k in net.tasks ==> k in processed
    ensures a in out.network.tasks
    ensures out.network.tasks[a].lateFinish == 0.0 && out.network.tasks[a].totalFloat == -2.0
    ensures out.summary.criticalPath == [b]
  {
    SampledExampleForward(net, fw, processed, a, b, c);
    DictionaryOrderMissesFirst(fw.tasks, a, b, c);
  }

  /** Any textbook late schedule of the example: a finishes at 2 with float 0, and the critical path is a, b. */
  lemma TextbookFindsFirst(t: map<string, Task>, r: map<string, Task>, a: string, b: string, c: string)
    requires Example(t, a, b, c)
    requires r.Keys == t.Keys && forall x :: x in t ==> OnlyLateTimesChanged(r[x], t[x])
    requires TextbookLate(r, 5.0)
    ensures r[a].lateFinish == 2.0 && r[a].totalFloat == 0.0 && r[a].isCritical
    ensures CriticalPath([a, b, c], r) == [a, b]
  {
    assert OnlyLateTimesChanged(r[a], t[a]) && OnlyLateTimesChanged(r[b], t[b])
           && OnlyLateTimesChanged(r[c], t[c]);
    assert r[b].lateStart == 2.0 && r[c].lateStart == 4.0;
    TextbookReadsPair(r, 5.0, a, b, c);
    MinLateStartOfTwo(r, b, c);
    CriticalPathFirstTwo(r, a, b, c);
  }

  /**
    The calculation as evidently intended, run on the example: a finishes at
    2 with float 0, and the reported critical path is a, b.
  */
  method CalculateSampledExampleCorrected(net: Network, a: string, b: string, c: string)
    returns (r: Result<Calculated, CpmError>)
    requires SampledExample(net, a, b, c)
    ensures r.Success? && a in r.value.network.tasks
    ensures r.value.network.tasks[a].lateFinish == 2.0 && r.value.network.tasks[a].totalFloat == 0.0
    ensures r.value.summary.criticalPath == [a, b]
  {
    SampledExampleAcyclic(net, a, b, c);
    var processed;
    ghost var fw;
    r, processed, fw := CalculateNetworkCorrected(net);
    TextbookOnExample(net, fw, processed, r.value, a, b, c);
  }

  /** Any textbook finish of the example's forward pass leaves a with float 0 and reports a, b. */
  lemma TextbookOnExample(net: Network, fw: Network, processed: seq<string>, out: Calculated,
                          a: string, b: string, c: string)
    requires SampledExample(net, a, b, c)
    requires FinishedFrom(net, fw, processed, Reverse(processed), out)
    requires forall k :: k in net.tasks ==> k in processed
    requires TextbookLate(out.network.tasks, out.summary.projectDuration)
    ensures a in out.network.tasks
    ensures out.network.tasks[a].lateFinish == 2.0 && out.network.tasks[a].totalFloat == 0.0
    ensures out.summary.criticalPath == [a, b]
  {
    SampledExampleForward(net, fw, processed, a, b, c);
    TextbookFindsFirst(fw.tasks, out.network.tasks, a, b, c);
  }
}

/**
  The complete network calculation of one iteration: forward pass, backward
  pass, and the critical path read off the flags in dictionary order.
*/
module NetworkCalculation {
  import opened Wrappers
  import opened Seqs
  import opened TaskModel
  import opened ProjectNetwork
  import opened ForwardPass
  import opened Backward

  /** The ids of the flagged tasks, in the order `order` lists them. */
  function CriticalPath(order: seq<string>, tasks: map<string, Task>): (cp: seq<string>)
    requires forall i :: 0 <= i < |order| ==> order[i] in tasks
    ensures forall x :: x in cp <==> x in order && tasks[x].isCritical
    ensures Distinct(order) ==> Distinct(cp)
    ensures |cp| <= |order|
    ensures Subsequence(cp, order)
  {
    if |order| == 0 then []
    else
      var rest := CriticalPath(order[1..], tasks);
      if tasks[order[0]].isCritical then
        assert ([order[0]] + rest)[1..] == rest;
        [order[0]] + rest
      else rest
  }

  /** The dictionary one calculation returns. */
  datatype Summary = Summary(projectDuration: real, criticalPath: seq<string>,
                             criticalPathLength: nat, totalTasks: nat)

  /** The network as the calculation leaves it, and the summary it reports. */
  datatype Calculated = Calculated(network: Network, summary: Summary)

  /** The forward pass's result satisfies what the backward pass needs of its input. */
  lemma ForwardResultSuccessorsIn(net: Network, fw: Network)
    requires WellFormed(net)
    requires fw.tasks.Keys == net.tasks.Keys
    requires forall k :: k in net.tasks ==> OnlyEarlyTimesChanged(fw.tasks[k], net.tasks[k])
    ensures SuccessorsIn(fw.tasks)
  {
    WellFormedSuccessorsKnown(net);
    forall a, b | a in fw.tasks && b in fw.tasks[a].successors
      ensures b in fw.tasks
    {
      assert fw.tasks[a].successors == net.tasks[a].successors;
    }
  }

  /** Once every task is processed, the forward pass's early times are complete and consistent. */
  lemma ForwardResultConsistent(net: Network, fw: Network, processed: seq<string>)
    requires WellFormed(net)
    requires fw.tasks.Keys == net.tasks.Keys
    requires forall k :: k in net.tasks ==> OnlyEarlyTimesChanged(fw.tasks[k], net.tasks[k])
    requires forall k :: k in net.tasks ==> k in processed
    requires forall k :: k in processed ==> k in fw.tasks && Scheduled(fw.tasks, k)
    requires forall k :: k in net.tasks ==> fw.tasks[k].earlyFinish <= fw.projectDuration
    ensures EarlyTimesConsistent(fw.tasks, fw.projectDuration)
  {
    forall a, b | a in fw.tasks && b in fw.tasks[a].successors && b in fw.tasks
      ensures fw.tasks[a].earlyFinish <= fw.tasks[b].earlyStart
    {
      assert fw.tasks[a].successors == net.tasks[a].successors;
      assert Edge(net, a, b);
      EdgeIsPredecessor(net, a, b);
      var preds := fw.tasks[b].predecessors;
      assert preds == net.tasks[b].predecessors;
      assert Scheduled(fw.tasks, b);
      var i :| 0 <= i < |preds| && preds[i] == a;
      assert fw.tasks[preds[i]].earlyFinish <= MaxEarlyFinish(fw.tasks, preds);
    }
  }

  /** Processing order read backwards visits every task's successors first. */
  lemma ReversedProcessingOrder(net: Network, fw: Network, processed: seq<string>)
    requires WellFormed(net)
    requires fw.tasks.Keys == net.tasks.Keys
    requires forall k :: k in net.tasks ==> OnlyEarlyTimesChanged(fw.tasks[k], net.tasks[k])
    requires Distinct(processed) && PredecessorsFirst(net, processed)
    requires forall k :: k in net.tasks ==> k in processed
    ensures ReverseTopological(fw.tasks, Reverse(processed))
  {
    WellFormedSuccessorsKnown(net);
    var rev := Reverse(processed);
    var n := |processed|;
    ReverseDistinct(processed);
    forall i, j | 0 <= i < n && 0 <= j < |fw.tasks[rev[i]].successors|
      ensures fw.tasks[rev[i]].successors[j] in rev[..i]
    {
      var x := rev[i];
      var s := fw.tasks[x].successors[j];
      ReverseAt(processed, n - 1 - i);
      assert fw.tasks[x].successors == net.tasks[x].successors;
      var q := ProcessedAfter(net, processed, n - 1 - i, s);
      ReverseAt(processed, q);
      InPrefix(rev, n - 1 - q, i);
    }
  }

  /** A successor of the `m`-th processed task is processed after it. */
  lemma ProcessedAfter(net: Network, processed: seq<string>, m: nat, s: string) returns (q: nat)
    requires WellFormed(net)
    requires Distinct(processed) && PredecessorsFirst(net, processed)
    requires forall k :: k in net.tasks ==> k in processed
    requires m < |processed| && processed[m] in net.tasks && s in net.tasks[processed[m]].successors
    ensures m < q < |processed| && processed[q] == s
  {
    var x := processed[m];
    WellFormedSuccessorsKnown(net);
    assert Edge(net, x, s);
    EdgeIsPredecessor(net, x, s);
    q :| 0 <= q < |processed| && processed[q] == s;
    assert x in processed[..q];
    var p :| 0 <= p < q && processed[..q][p] == x;
    assert processed[p] == x;
  }

  /**
    The calculation after the forward pass: the backward pass over `visit` and
    the summary. The summary lists, in dictionary order, exactly the flagged
    tasks, and counts every task.
  */
  function Finish(net: Network, fw: Network, visit: seq<string>): (c: Calculated)
    requires WellFormed(net)
    requires fw.tasks.Keys == net.tasks.Keys
    requires forall k :: k in net.tasks ==> OnlyEarlyTimesChanged(fw.tasks[k], net.tasks[k])
    requires forall i :: 0 <= i < |visit| ==> visit[i] in net.tasks
    ensures SuccessorsIn(fw.tasks)
    ensures c.network == Network(net.order, BackwardPass(fw.tasks, fw.projectDuration, visit), fw.projectDuration)
    ensures c.summary.projectDuration == fw.projectDuration
    ensures forall x :: x in c.summary.criticalPath <==> x in net.tasks && c.network.tasks[x].isCritical
    ensures Distinct(c.summary.criticalPath)
    ensures c.summary.criticalPathLength == |c.summary.criticalPath|
    ensures c.summary.totalTasks == |net.tasks.Keys|
  {
    ForwardResultSuccessorsIn(net, fw);
    var tasks := BackwardPass(fw.tasks, fw.projectDuration, visit);
    var cp := CriticalPath(net.order, tasks);
    DistinctCardinality(net.order, net.tasks.Keys);
    Calculated(Network(net.order, tasks, fw.projectDuration), Summary(fw.projectDuration, cp, |cp|, |net.order|))
  }

  /** The backward pass changes nothing the forward pass established. */
  lemma FinishKeepsForward(net: Network, fw: Network, visit: seq<string>, processed: seq<string>)
    requires WellFormed(net)
    requires fw.tasks.Keys == net.tasks.Keys
    requires forall k :: k in net.tasks ==> OnlyEarlyTimesChanged(fw.tasks[k], net.tasks[k])
    requires forall i :: 0 <= i < |visit| ==> visit[i] in net.tasks
    requires forall k :: k in processed ==> k in fw.tasks && Scheduled(fw.tasks, k)
    ensures var tasks := Finish(net, fw, visit).network.tasks;
            && SameStructure(tasks, net.tasks)
            && (forall k :: k in net.tasks ==> tasks[k].duration == net.tasks[k].duration)
            && (forall k :: k in net.tasks ==> tasks[k].earlyFinish == fw.tasks[k].earlyFinish)
            && (forall k :: k in processed ==> Scheduled(tasks, k))
  {
    var tasks := Finish(net, fw, visit).network.tasks;
    forall k | k in net.tasks
      ensures SameEstimate(tasks[k], net.tasks[k]) && tasks[k].duration == net.tasks[k].duration
      ensures tasks[k].earlyFinish == fw.tasks[k].earlyFinish
    {
      assert OnlyLateTimesChanged(tasks[k], fw.tasks[k]);
      assert OnlyEarlyTimesChanged(fw.tasks[k], net.tasks[k]);
    }
    forall k | k in processed
      ensures Scheduled(tasks, k)
    {
      ScheduledKept(fw.tasks, tasks, k);
    }
  }

  /**
    What one calculation reports, whichever order the backward pass visits:
    the order, structure and durations are kept; every processed task keeps
    its forward-pass times; the project duration is the largest early finish;
    the critical path lists each flagged task once, with its length and the
    number of tasks.
  */
  ghost predicate Reports(net: Network, processed: seq<string>, c: Calculated) {
    && c.network.order == net.order
    && SameStructure(c.network.tasks, net.tasks)
    && (forall k :: k in net.tasks ==> c.network.tasks[k].duration == net.tasks[k].duration)
    && (forall k :: k in processed ==> k in c.network.tasks && Scheduled(c.network.tasks, k))
    && (forall k :: k in net.tasks ==> c.network.tasks[k].earlyFinish <= c.summary.projectDuration)
    && (exists k :: k in net.tasks && c.network.tasks[k].earlyFinish == c.summary.projectDuration)
    && c.summary.projectDuration == c.network.projectDuration
    && (forall x :: x in c.summary.criticalPath <==> x in net.tasks && c.network.tasks[x].isCritical)
    && Distinct(c.summary.criticalPath)
    && c.summary.criticalPathLength == |c.summary.criticalPath|
    && c.summary.totalTasks == |net.tasks.Keys|
  }

  /**
    `c` is the calculation finished from the forward pass's result `fw`,
    with the backward pass visiting the tasks in the order `visit`.
  */
  ghost predicate FinishedFrom(net: Network, fw: Network, processed: seq<string>, visit: seq<string>, c: Calculated)
    requires WellFormed(net)
  {
    && ForwardResult(net, fw, processed)
    && (forall i :: 0 <= i < |visit| ==> visit[i] in net.tasks)
    && c == Finish(net, fw, visit)
  }

  /** Whatever the visiting order, finishing a forward pass's result meets `Reports`. */
  lemma FinishReports(net: Network, fw: Network, visit: seq<string>, processed: seq<string>)
    requires WellFormed(net) && ForwardResult(net, fw, processed)
    requires forall i :: 0 <= i < |visit| ==> visit[i] in net.tasks
    ensures Reports(net, processed, Finish(net, fw, visit))
    ensures FinishedFrom(net, fw, processed, visit, Finish(net, fw, visit))
  {
    var c := Finish(net, fw, visit);
    FinishKeepsForward(net, fw, visit, processed);
    var k :| k in net.tasks && fw.tasks[k].earlyFinish == fw.projectDuration;
    assert c.network.tasks[k].earlyFinish == c.summary.projectDuration;
  }

  /**
    `calculate_network` as written: the backward pass visits the tasks in
    dictionary order, whatever the dependencies. Every task still gets
    consistent late times and a sink finishes with the project, but a
    non-sink reads whatever late start its successors held when it was visited.
    The ghost `fw` is the forward pass's result: the outcome is exactly the
    backward pass over it in dictionary order.
  */
  method CalculateNetwork(net: Network)
    returns (r: Result<Calculated, CpmError>, processed: seq<string>, ghost fw: Network)
    requires WellFormed(net)
    ensures r.Failure? <==> |net.order| == 0
    ensures Distinct(processed) && PredecessorsFirst(net, processed)
    ensures PredecessorsKnown(net) && !HasCycle(net) ==> forall k :: k in net.tasks ==> k in processed
    ensures r.Success? ==> FinishedFrom(net, fw, processed, net.order, r.value)
    ensures r.Success? ==> Reports(net, processed, r.value)
    ensures r.Success? ==> forall k :: k in r.value.network.tasks ==>
              LateDone(r.value.network.tasks[k], r.value.summary.projectDuration)
  {
    var fwr;
    fwr, processed := CalculateForwardPass(net);
    if fwr.Failure? {
      return Failure(fwr.error), processed, net;
    }
    var forward := fwr.value;
    fw := forward;
    var c := Finish(net, forward, net.order);
    FinishReports(net, fw, net.order, processed);
    r := Success(c);
  }

  /**
    The calculation as evidently intended: the backward pass visits the tasks
    in reverse processing order, so every successor is final before it is
    read. On an acyclic network whose predecessor ids all resolve, the late
    times are the textbook ones, no float is negative, and with nonnegative
    durations the critical path is never empty.
  */
  method CalculateNetworkCorrected(net: Network)
    returns (r: Result<Calculated, CpmError>, processed: seq<string>, ghost fw: Network)
    requires WellFormed(net)
    ensures r.Failure? <==> |net.order| == 0
    ensures Distinct(processed) && PredecessorsFirst(net, processed)
    ensures PredecessorsKnown(net) && !HasCycle(net) ==> forall k :: k in net.tasks ==> k in processed
    ensures r.Success? ==> FinishedFrom(net, fw, processed, Reverse(processed), r.value)
    ensures r.Success? ==> Reports(net, processed, r.value)
    ensures r.Success? && PredecessorsKnown(net) && !HasCycle(net) ==>
              TextbookLate(r.value.network.tasks, r.value.summary.projectDuration)
    ensures r.Success? && PredecessorsKnown(net) && !HasCycle(net) ==>
              forall k :: k in r.value.network.tasks ==> r.value.network.tasks[k].totalFloat >= 0.0
    ensures r.Success? && PredecessorsKnown(net) && !HasCycle(net) &&
            (forall k :: k in net.tasks ==> net.tasks[k].duration >= 0.0) ==>
              |r.value.summary.criticalPath| > 0
  {
    var fwr;
    fwr, processed := CalculateForwardPass(net);
    if fwr.Failure? {
      return Failure(fwr.error), processed, net;
    }
    var forward := fwr.value;
    fw := forward;
    var visit := Reverse(processed);
    var c := Finish(net, forward, visit);
    FinishReports(net, fw, visit, processed);
    r := Success(c);
    if PredecessorsKnown(net) && !HasCycle(net) {
      CorrectedFinish(net, fw, processed, c);
    }
  }

  /**
    When every task was processed, finishing in reverse processing order
    gives the textbook late times and no negative float, and with no negative
    duration a nonempty critical path.
  */
  lemma CorrectedFinish(net: Network, fw: Network, processed: seq<string>, c: Calculated)
    requires WellFormed(net) && FinishedFrom(net, fw, processed, Reverse(processed), c)
    requires Distinct(processed) && PredecessorsFirst(net, processed)
    requires forall k :: k in net.tasks ==> k in processed
    ensures TextbookLate(c.network.tasks, c.summary.projectDuration)
    ensures forall k :: k in c.network.tasks ==> c.network.tasks[k].totalFloat >= 0.0
    ensures (forall k :: k in net.tasks ==> net.tasks[k].duration >= 0.0) ==> |c.summary.criticalPath| > 0
  {
    var visit := Reverse(processed);
    CorrectedPreconditions(net, fw, processed);
    CorrectedSchedule(net, fw, processed, visit, c);
    if forall k :: k in net.tasks ==> net.tasks[k].duration >= 0.0 {
      CorrectedCritical(net, fw, processed, visit, c);
    }
  }

  /**
    Over a reverse topological order covering every task, finishing the
    forward pass's result gives the textbook late times and no negative float.
  */
  lemma CorrectedSchedule(net: Network, fw: Network, processed: seq<string>, visit: seq<string>, c: Calculated)
    requires WellFormed(net) && FinishedFrom(net, fw, processed, visit, c)
    requires forall x :: x in fw.tasks ==> x in visit
    requires ReverseTopological(fw.tasks, visit) && EarlyTimesConsistent(fw.tasks, fw.projectDuration)
    ensures TextbookLate(c.network.tasks, fw.projectDuration)
    ensures forall k :: k in c.network.tasks ==> c.network.tasks[k].totalFloat >= 0.0
  {
    BackwardPassTextbook(fw.tasks, fw.projectDuration, visit);
  }

  /** Over such an order, and with no negative duration, some task is reported critical. */
  lemma CorrectedCritical(net: Network, fw: Network, processed: seq<string>, visit: seq<string>, c: Calculated)
    requires WellFormed(net) && FinishedFrom(net, fw, processed, visit, c)
    requires forall x :: x in fw.tasks ==> x in visit
    requires ReverseTopological(fw.tasks, visit) && EarlyTimesConsistent(fw.tasks, fw.projectDuration)
    requires forall k :: k in net.tasks ==> net.tasks[k].duration >= 0.0
    ensures |c.summary.criticalPath| > 0
  {
    forall k | k in fw.tasks
      ensures fw.tasks[k].duration >= 0.0
    {
      assert OnlyEarlyTimesChanged(fw.tasks[k], net.tasks[k]);
    }
    BackwardPassCritical(fw.tasks, fw.projectDuration, visit);
    var x :| x in fw.tasks && c.network.tasks[x].isCritical;
    assert x in c.summary.criticalPath;
  }

  /** On an acyclic network with resolvable ids, reverse processing order meets the textbook theorems' demands. */
  lemma CorrectedPreconditions(net: Network, fw: Network, processed: seq<string>)
    requires WellFormed(net)
    requires fw.tasks.Keys == net.tasks.Keys
    requires forall k :: k in net.tasks ==> OnlyEarlyTimesChanged(fw.tasks[k], net.tasks[k])
    requires Distinct(processed) && PredecessorsFirst(net, processed)
    requires forall k :: k in net.tasks ==> k in processed
    requires forall k :: k in processed ==> k in fw.tasks && Scheduled(fw.tasks, k)
    requires forall k :: k in net.tasks ==> fw.tasks[k].earlyFinish <= fw.projectDuration
    ensures SuccessorsIn(fw.tasks)
    ensures ReverseTopological(fw.tasks, Reverse(processed))
    ensures EarlyTimesConsistent(fw.tasks, fw.projectDuration)
    ensures forall x :: x in fw.tasks ==> x in Reverse(processed)
  {
    ForwardResultSuccessorsIn(net, fw);
    ForwardResultConsistent(net, fw, processed);
    ReversedProcessingOrder(net, fw, processed);
    var visit := Reverse(processed);
    forall x | x in fw.tasks
      ensures x in visit
    {
      var i :| 0 <= i < |processed| && processed[i] == x;
      assert visit[|processed| - 1 - i] == x;
    }
  }

  /** The number of keys is the length of the distinct listing that covers them. */
  lemma DistinctCardinality(order: seq<string>, keys: set<string>)
    requires Distinct(order)
    requires forall k :: k in keys <==> k in order
    ensures |keys| == |order|
    decreases |order|
  {
    if |order| > 0 {
      var last := order[|order| - 1];
      var init := order[..|order| - 1];
      assert order == init + [last];
      assert last !in init;
      DistinctCardinality(init, keys - {last});
    }
  }

  /** The backward pass leaves the forward pass's equations intact. */
  lemma ScheduledKept(a: map<string, Task>, b: map<string, Task>, k: string)
    requires a.Keys == b.Keys && k in a && Scheduled(a, k)
    requires forall x :: x in a ==> OnlyLateTimesChanged(b[x], a[x])
    ensures Scheduled(b, k)
  {
    var preds := a[k].predecessors;
    assert b[k].predecessors == preds;
    if |preds| > 0 {
      forall i | 0 <= i < |preds|
        ensures a[preds[i]].earlyFinish == b[preds[i]].earlyFinish
      {
        assert OnlyLateTimesChanged(b[preds[i]], a[preds[i]]);
      }
      MaxEarlyFinishFrame(a, b, preds);
    }
  }
}

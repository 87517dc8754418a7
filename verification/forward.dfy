/**
  The forward pass of the critical path method: Kahn's algorithm with an
  in-degree counter and a FIFO worklist computes early start and early finish;
  the project duration is the largest early finish over all tasks.
*/
module ForwardPass {
  import opened Wrappers
  import opened Seqs
  import opened TaskModel
  import opened ProjectNetwork

  /** Raised when the project duration is the maximum of no tasks at all. */
  datatype CpmError = EmptyNetwork

  /** The largest early finish among the tasks named by `ids`. */
  function MaxEarlyFinish(tasks: map<string, Task>, ids: seq<string>): (m: real)
    requires |ids| > 0
    requires forall i :: 0 <= i < |ids| ==> ids[i] in tasks
    ensures forall i :: 0 <= i < |ids| ==> tasks[ids[i]].earlyFinish <= m
    ensures exists i :: 0 <= i < |ids| && tasks[ids[i]].earlyFinish == m
  {
    if |ids| == 1 then tasks[ids[0]].earlyFinish
    else
      var rest := MaxEarlyFinish(tasks, ids[1..]);
      if tasks[ids[0]].earlyFinish >= rest then tasks[ids[0]].earlyFinish else rest
  }

  /** Early start of a task with predecessors `preds`: 0 without any, else their largest early finish. */
  function EarlyStartOf(tasks: map<string, Task>, preds: seq<string>): real
    requires forall i :: 0 <= i < |preds| ==> preds[i] in tasks
  {
    if |preds| == 0 then 0.0 else MaxEarlyFinish(tasks, preds)
  }

  lemma {:induction false} MaxEarlyFinishFrame(a: map<string, Task>, b: map<string, Task>, ids: seq<string>)
    requires |ids| > 0
    requires forall i :: 0 <= i < |ids| ==> ids[i] in a && ids[i] in b
    requires forall i :: 0 <= i < |ids| ==> a[ids[i]].earlyFinish == b[ids[i]].earlyFinish
    ensures MaxEarlyFinish(a, ids) == MaxEarlyFinish(b, ids)
  {
    if |ids| > 1 {
      MaxEarlyFinishFrame(a, b, ids[1..]);
    }
  }

  /** A task whose early times obey the forward-pass equations in `tasks`. */
  predicate Scheduled(tasks: map<string, Task>, k: string)
    requires k in tasks
  {
    var t := tasks[k];
    && (forall i :: 0 <= i < |t.predecessors| ==> t.predecessors[i] in tasks)
    && t.earlyStart == EarlyStartOf(tasks, t.predecessors)
    && t.earlyFinish == t.earlyStart + t.duration
  }

  /** `a` is `b` with at most its early times changed. */
  predicate OnlyEarlyTimesChanged(a: Task, b: Task) {
    a == b.(earlyStart := a.earlyStart, earlyFinish := a.earlyFinish)
  }

  /** The ids, in dictionary order, of tasks without predecessors: the initial worklist. */
  function Roots(order: seq<string>, tasks: map<string, Task>): (r: seq<string>)
    requires forall i :: 0 <= i < |order| ==> order[i] in tasks
    ensures forall x :: x in r <==> x in order && |tasks[x].predecessors| == 0
    ensures forall i :: 0 <= i < |r| ==> r[i] in tasks
    ensures Distinct(order) ==> Distinct(r)
    ensures Subsequence(r, order)
  {
    if |order| == 0 then []
    else
      var rest := Roots(order[1..], tasks);
      if |tasks[order[0]].predecessors| == 0 then
        assert ([order[0]] + rest)[1..] == rest;
        [order[0]] + rest
      else rest
  }

  /** Every unprocessed task still waits for an unprocessed predecessor. */
  ghost predicate Stuck(net: Network, doneSet: set<string>) {
    forall x {:trigger Waiting(net, doneSet, x)} :: x in net.tasks && x !in doneSet ==> Waiting(net, doneSet, x)
  }

  /** Task `x` has a predecessor outside `doneSet`. */
  ghost predicate Waiting(net: Network, doneSet: set<string>, x: string)
    requires x in net.tasks
  {
    exists i :: 0 <= i < |net.tasks[x].predecessors| && net.tasks[x].predecessors[i] !in doneSet
  }

  /** Each element of `c` is a successor of the element after it. */
  ghost predicate BackwardLinked(net: Network, c: seq<string>) {
    forall i :: 0 <= i < |c| - 1 ==> Edge(net, c[i + 1], c[i])
  }

  /**
    Starting from an unprocessed task and stepping to an unprocessed
    predecessor each time gives a chain of |tasks| + 1 tasks, each an edge's
    target whose source follows it.
  */
  lemma BackwardChain(net: Network, doneSet: set<string>, x0: string) returns (c: seq<string>)
    requires WellFormed(net) && PredecessorsKnown(net)
    requires Stuck(net, doneSet)
    requires x0 in net.tasks && x0 !in doneSet
    ensures |c| == |net.tasks.Keys| + 1
    ensures forall i :: 0 <= i < |c| ==> c[i] in net.tasks
    ensures BackwardLinked(net, c)
  {
    c := [x0];
    while |c| <= |net.tasks.Keys|
      invariant 1 <= |c| <= |net.tasks.Keys| + 1
      invariant forall i :: 0 <= i < |c| ==> c[i] in net.tasks && c[i] !in doneSet
      invariant BackwardLinked(net, c)
      decreases |net.tasks.Keys| + 1 - |c|
    {
      var x := c[|c| - 1];
      var p := StuckStep(net, doneSet, x);
      c := c + [p];
    }
  }

  /** One step back along the chain: an unprocessed predecessor, joined to `x` by an edge. */
  lemma StuckStep(net: Network, doneSet: set<string>, x: string) returns (p: string)
    requires WellFormed(net) && PredecessorsKnown(net)
    requires Stuck(net, doneSet)
    requires x in net.tasks && x !in doneSet
    ensures p in net.tasks && p !in doneSet && Edge(net, p, x)
  {
    assert Waiting(net, doneSet, x);
    var i :| 0 <= i < |net.tasks[x].predecessors| && net.tasks[x].predecessors[i] !in doneSet;
    p := net.tasks[x].predecessors[i];
    EdgeIsPredecessor(net, p, x);
  }

  /** A repeated task in a backward chain closes a cycle. */
  lemma CycleFromBackwardRepeat(net: Network, c: seq<string>, i: nat, j: nat)
    requires i < j < |c| && c[i] == c[j]
    requires forall m :: 0 <= m < |c| ==> c[m] in net.tasks
    requires BackwardLinked(net, c)
    ensures HasCycle(net)
  {
    var cyc := seq(j - i + 1, m requires 0 <= m < j - i + 1 => c[j - m]);
    forall m | 0 <= m < |cyc| - 1
      ensures Edge(net, cyc[m], cyc[m + 1])
    {
      assert cyc[m] == c[(j - m - 1) + 1];
    }
    assert IsCycle(net, cyc);
  }

  /**
    If the worklist has run dry while some task is unprocessed, and every
    predecessor id resolves, the graph has a cycle.
  */
  lemma KahnComplete(net: Network, doneSet: set<string>)
    requires WellFormed(net) && PredecessorsKnown(net) && !HasCycle(net)
    requires Stuck(net, doneSet)
    ensures net.tasks.Keys <= doneSet
  {
    if x0 :| x0 in net.tasks && x0 !in doneSet {
      var c := BackwardChain(net, doneSet, x0);
      Pigeonhole(c, net.tasks.Keys);
      var i, j :| 0 <= i < j < |c| && c[i] == c[j];
      CycleFromBackwardRepeat(net, c, i, j);
    }
  }

  /** The worklist and counters agree: a task is processed or queued exactly when its count is zero. */
  ghost predicate CountersAgree(net: Network, inDeg: map<string, int>, queue: seq<string>, doneSet: set<string>) {
    && inDeg.Keys == net.tasks.Keys
    && Distinct(queue)
    && (forall i :: 0 <= i < |queue| ==> queue[i] in net.tasks && queue[i] !in doneSet)
    && (forall x {:trigger inDeg[x]} :: x in net.tasks ==> (x in doneSet || x in queue <==> inDeg[x] == 0))
  }

  /** Each counter equals the predecessor entries outside `done`, less the releases already `consumed`. */
  ghost predicate Pending(net: Network, inDeg: map<string, int>, done: set<string>, consumed: seq<string>) {
    && inDeg.Keys == net.tasks.Keys
    && forall x {:trigger inDeg[x]} :: x in net.tasks ==>
         inDeg[x] == CountOutside(net.tasks[x].predecessors, done) - Count(consumed, x)
  }

  /**
    Releases the successors of the task `u` just processed: one decrement per
    successor entry, enqueueing each task whose counter reaches zero. Counts
    stay equal to the number of predecessor entries not yet processed.
  */
  method ReleaseSuccessors(net: Network, u: string, inDeg: map<string, int>, queue: seq<string>,
                           ghost oldDone: set<string>)
    returns (inDegOut: map<string, int>, queueOut: seq<string>)
    requires Inverted(net)
    requires u in net.tasks && u !in oldDone && oldDone <= net.tasks.Keys
    requires CountersAgree(net, inDeg, queue, oldDone + {u})
    requires Pending(net, inDeg, oldDone, [])
    ensures CountersAgree(net, inDegOut, queueOut, oldDone + {u})
    ensures Pending(net, inDegOut, oldDone + {u}, [])
  {
    var succ := net.tasks[u].successors;
    inDegOut, queueOut := inDeg, queue;
    var k := 0;
    while k < |succ|
      invariant 0 <= k <= |succ|
      invariant CountersAgree(net, inDegOut, queueOut, oldDone + {u}) == true
      invariant Pending(net, inDegOut, oldDone, succ[..k]) == true
    {
      var s := succ[k];
      SliceSnoc(succ, k);
      ReleaseStep(net, u, oldDone, succ, k);
      DecrementKeepsCounters(net, inDegOut, queueOut, oldDone + {u}, oldDone, succ[..k], s);
      inDegOut := inDegOut[s := inDegOut[s] - 1];
      if inDegOut[s] == 0 {
        queueOut := queueOut + [s];
      }
      k := k + 1;
    }
    assert succ[..k] == succ;
    FinishRelease(net, inDegOut, oldDone, u);
  }

  /** Once all of `u`'s entries are released, the counters measure against the grown processed set. */
  lemma FinishRelease(net: Network, inDeg: map<string, int>, oldDone: set<string>, u: string)
    requires Inverted(net)
    requires u in net.tasks && u !in oldDone
    requires Pending(net, inDeg, oldDone, net.tasks[u].successors)
    ensures Pending(net, inDeg, oldDone + {u}, [])
  {
    forall x | x in net.tasks
      ensures inDeg[x] == CountOutside(net.tasks[x].predecessors, oldDone + {u}) - Count([], x)
    {
      CountOutsideAdd(net.tasks[x].predecessors, oldDone, u);
      assert Count(net.tasks[u].successors, x) == Count(net.tasks[x].predecessors, u);
    }
  }

  /** One release keeps the counters and the worklist in agreement. */
  lemma DecrementKeepsCounters(net: Network, inDeg: map<string, int>, queue: seq<string>,
                               done: set<string>, oldDone: set<string>, consumed: seq<string>, s: string)
    requires CountersAgree(net, inDeg, queue, done)
    requires Pending(net, inDeg, oldDone, consumed)
    requires s in net.tasks
    requires CountOutside(net.tasks[s].predecessors, oldDone) - Count(consumed, s) >= 1
    ensures var inDeg' := inDeg[s := inDeg[s] - 1];
            var queue' := if inDeg'[s] == 0 then queue + [s] else queue;
            CountersAgree(net, inDeg', queue', done) && Pending(net, inDeg', oldDone, consumed + [s])
  {
    assert inDeg[s] >= 1;
    forall x
      ensures Count(consumed + [s], x) == Count(consumed, x) + (if x == s then 1 else 0)
    {
      CountSnoc(consumed, s, x);
    }
  }

  /**
    Releasing entry `k` of `u`'s successor list: the target still has an
    outstanding predecessor entry, so its counter is positive before the decrement.
  */
  lemma ReleaseStep(net: Network, u: string, oldDone: set<string>, succ: seq<string>, k: nat)
    requires Inverted(net)
    requires u in net.tasks && u !in oldDone
    requires succ == net.tasks[u].successors && k < |succ|
    ensures succ[k] in net.tasks
    ensures CountOutside(net.tasks[succ[k]].predecessors, oldDone) - Count(succ[..k], succ[k]) >= 1
  {
    var s := succ[k];
    assert succ == succ[..k] + succ[k..];
    CountConcat(succ[..k], succ[k..], s);
    assert s in succ[k..];
    assert Count(net.tasks[u].successors, s) == Count(net.tasks[s].predecessors, u);
    CountOutsideAdd(net.tasks[s].predecessors, oldDone, u);
  }

  /** Every predecessor entry of a task in `doneSet` is itself in `doneSet`. */
  ghost predicate Closed(tasks: map<string, Task>, doneSet: set<string>) {
    && doneSet <= tasks.Keys
    && forall x, i :: x in doneSet && 0 <= i < |tasks[x].predecessors| ==> tasks[x].predecessors[i] in doneSet
  }

  /** Each task of `processed` is a task of the network listed after all of its predecessors. */
  ghost predicate PredecessorsFirst(net: Network, processed: seq<string>) {
    forall i :: 0 <= i < |processed| ==>
      (processed[i] in net.tasks && forall p :: p in net.tasks[processed[i]].predecessors ==> p in processed[..i])
  }

  lemma PredecessorsFirstSnoc(net: Network, processed: seq<string>, u: string)
    requires PredecessorsFirst(net, processed)
    requires u in net.tasks
    requires forall p :: p in net.tasks[u].predecessors ==> p in processed
    ensures PredecessorsFirst(net, processed + [u])
  {
    var q := processed + [u];
    forall i | 0 <= i < |q|
      ensures q[i] in net.tasks && forall p :: p in net.tasks[q[i]].predecessors ==> p in q[..i]
    {
      if i < |processed| {
        assert q[..i] == processed[..i];
      } else {
        assert q[..i] == processed;
      }
    }
  }

  /** Writing the early times of `u` keeps every processed task's equations, `u`'s included. */
  lemma ScheduledPreserved(oldTasks: map<string, Task>, tasks: map<string, Task>, u: string,
                           oldDone: set<string>, t: Task, es: real)
    requires u in oldTasks && u !in oldDone && t == oldTasks[u]
    requires Closed(oldTasks, oldDone)
    requires forall i :: 0 <= i < |t.predecessors| ==> t.predecessors[i] in oldDone
    requires forall x :: x in oldDone ==> Scheduled(oldTasks, x)
    requires es == EarlyStartOf(oldTasks, t.predecessors)
    requires tasks == oldTasks[u := t.(earlyStart := es, earlyFinish := es + t.duration)]
    ensures Closed(tasks, oldDone + {u})
    ensures forall x :: x in oldDone + {u} ==> Scheduled(tasks, x)
  {
    forall x | x in oldDone + {u}
      ensures Scheduled(tasks, x)
    {
      var preds := oldTasks[x].predecessors;
      if |preds| > 0 {
        MaxEarlyFinishFrame(oldTasks, tasks, preds);
      }
    }
  }

  /** The early-time part of the worklist state: only processed tasks carry computed times. */
  ghost predicate TimesInvariant(net: Network, tasks: map<string, Task>, doneSet: set<string>) {
    && tasks.Keys == net.tasks.Keys
    && (forall k :: k in tasks ==> OnlyEarlyTimesChanged(tasks[k], net.tasks[k]))
    && (forall k :: k in tasks && k !in doneSet ==> tasks[k] == net.tasks[k])
    && Closed(tasks, doneSet)
    && (forall k :: k in doneSet ==> Scheduled(tasks, k))
  }

  /** The ordering part of the worklist state: `processed` lists `doneSet` once each, predecessors first. */
  ghost predicate OrderInvariant(net: Network, processed: seq<string>, doneSet: set<string>) {
    && (forall x :: x in doneSet <==> x in processed)
    && Distinct(processed)
    && PredecessorsFirst(net, processed)
  }

  /** What holds of the worklist state between two dequeues. */
  ghost predicate KahnInvariant(net: Network, tasks: map<string, Task>, inDeg: map<string, int>,
                                queue: seq<string>, processed: seq<string>, doneSet: set<string>) {
    && TimesInvariant(net, tasks, doneSet)
    && OrderInvariant(net, processed, doneSet)
    && CountersAgree(net, inDeg, queue, doneSet)
    && Pending(net, inDeg, doneSet, [])
  }

  /** Scheduling a ready task `u` extends the early-time part of the state to `u`. */
  lemma TimesStep(net: Network, tasks: map<string, Task>, tasks': map<string, Task>, doneSet: set<string>,
                  u: string, t: Task, es: real)
    requires TimesInvariant(net, tasks, doneSet)
    requires u in net.tasks && u !in doneSet && t == tasks[u]
    requires forall i :: 0 <= i < |net.tasks[u].predecessors| ==> net.tasks[u].predecessors[i] in doneSet
    requires es == EarlyStartOf(tasks, t.predecessors)
    requires tasks' == tasks[u := t.(earlyStart := es, earlyFinish := es + t.duration)]
    ensures TimesInvariant(net, tasks', doneSet + {u})
  {
    ScheduledPreserved(tasks, tasks', u, doneSet, t, es);
    OnlyEarlyTimesWritten(net, tasks, tasks', doneSet, u, t, es);
  }

  /** Writing `u`'s early times changes nothing else, and no task outside the processed set. */
  lemma OnlyEarlyTimesWritten(net: Network, tasks: map<string, Task>, tasks': map<string, Task>,
                              doneSet: set<string>, u: string, t: Task, es: real)
    requires tasks.Keys == net.tasks.Keys && u in tasks && t == tasks[u]
    requires forall k :: k in tasks ==> OnlyEarlyTimesChanged(tasks[k], net.tasks[k])
    requires forall k :: k in tasks && k !in doneSet ==> tasks[k] == net.tasks[k]
    requires tasks' == tasks[u := t.(earlyStart := es, earlyFinish := es + t.duration)]
    ensures tasks'.Keys == net.tasks.Keys
    ensures forall k :: k in tasks' ==> OnlyEarlyTimesChanged(tasks'[k], net.tasks[k])
    ensures forall k :: k in tasks' && k !in doneSet + {u} ==> tasks'[k] == net.tasks[k]
  {
  }

  /** Appending a ready task `u` extends the ordering part of the state to `u`. */
  lemma OrderStep(net: Network, processed: seq<string>, doneSet: set<string>, u: string)
    requires OrderInvariant(net, processed, doneSet)
    requires u in net.tasks && u !in doneSet
    requires forall i :: 0 <= i < |net.tasks[u].predecessors| ==> net.tasks[u].predecessors[i] in doneSet
    ensures OrderInvariant(net, processed + [u], doneSet + {u})
  {
    PredecessorsFirstSnoc(net, processed, u);
  }

  /** The head of the worklist has all its predecessor entries processed. */
  lemma HeadIsReady(net: Network, inDeg: map<string, int>, queue: seq<string>, doneSet: set<string>)
    requires |queue| > 0
    requires CountersAgree(net, inDeg, queue, doneSet)
    requires Pending(net, inDeg, doneSet, [])
    ensures queue[0] in net.tasks && queue[0] !in doneSet
    ensures forall i :: 0 <= i < |net.tasks[queue[0]].predecessors| ==> net.tasks[queue[0]].predecessors[i] in doneSet
  {
    var u := queue[0];
    assert inDeg[u] == 0;
    CountOutsideZero(net.tasks[u].predecessors, doneSet);
  }

  /** Removing the head of a distinct worklist leaves the others queued and the head not. */
  lemma DequeueKeepsCounters(net: Network, inDeg: map<string, int>, queue: seq<string>, doneSet: set<string>)
    requires |queue| > 0
    requires CountersAgree(net, inDeg, queue, doneSet)
    ensures CountersAgree(net, inDeg, queue[1..], doneSet + {queue[0]})
  {
    forall x | x in queue
      ensures x == queue[0] || x in queue[1..]
    {
      var i :| 0 <= i < |queue| && queue[i] == x;
      if i > 0 {
        assert queue[1..][i - 1] == x;
      }
    }
    forall i | 0 <= i < |queue[1..]|
      ensures queue[1..][i] != queue[0]
    {
      assert queue[1..][i] == queue[i + 1];
    }
  }

  /** One dequeue of Kahn's algorithm: schedule the head of the worklist and release its successors. */
  method ProcessNext(net: Network, tasks: map<string, Task>, inDeg: map<string, int>, queue: seq<string>,
                     processed: seq<string>, ghost doneSet: set<string>)
    returns (tasks': map<string, Task>, inDeg': map<string, int>, queue': seq<string>,
             processed': seq<string>, ghost doneSet': set<string>)
    requires WellFormed(net)
    requires |queue| > 0
    requires KahnInvariant(net, tasks, inDeg, queue, processed, doneSet)
    ensures queue[0] in net.tasks && queue[0] !in doneSet && doneSet' == doneSet + {queue[0]}
    ensures KahnInvariant(net, tasks', inDeg', queue', processed', doneSet')
    ensures processed' == processed + [queue[0]]
  {
    var u := queue[0];
    HeadIsReady(net, inDeg, queue, doneSet);
    DequeueKeepsCounters(net, inDeg, queue, doneSet);
    var t := tasks[u];
    var es := if |t.predecessors| == 0 then 0.0 else MaxEarlyFinish(tasks, t.predecessors);
    tasks' := tasks[u := t.(earlyStart := es, earlyFinish := es + t.duration)];
    TimesStep(net, tasks, tasks', doneSet, u, t, es);
    OrderStep(net, processed, doneSet, u);
    processed' := processed + [u];
    doneSet' := doneSet + {u};
    WellFormedInverted(net);
    inDeg', queue' := ReleaseSuccessors(net, u, inDeg, queue[1..], doneSet);
  }

  /** A processed task's predecessor ids all resolve to tasks of the network. */
  lemma ProcessedPredecessorsKnown(net: Network, processed: seq<string>, k: string)
    requires PredecessorsFirst(net, processed)
    requires k in processed
    ensures k in net.tasks
    ensures forall j :: 0 <= j < |net.tasks[k].predecessors| ==> net.tasks[k].predecessors[j] in net.tasks
  {
    var i :| 0 <= i < |processed| && processed[i] == k;
    forall j | 0 <= j < |net.tasks[k].predecessors|
      ensures net.tasks[k].predecessors[j] in net.tasks
    {
      var p := net.tasks[k].predecessors[j];
      assert p in processed[..i];
      var m :| 0 <= m < i && processed[..i][m] == p;
      assert processed[m] in net.tasks;
    }
  }

  /**
    `fw` is what the forward pass leaves behind: only early times changed,
    every processed task obeys the forward equations, the others keep their
    reset times, and the project duration is the largest early finish.
  */
  ghost predicate ForwardResult(net: Network, fw: Network, processed: seq<string>) {
    && fw.order == net.order && fw.tasks.Keys == net.tasks.Keys
    && (forall k :: k in net.tasks ==> OnlyEarlyTimesChanged(fw.tasks[k], net.tasks[k]))
    && (forall k :: k in processed ==> k in fw.tasks && Scheduled(fw.tasks, k))
    && (forall k :: k in net.tasks && k !in processed ==> fw.tasks[k] == net.tasks[k])
    && (forall k :: k in net.tasks ==> fw.tasks[k].earlyFinish <= fw.projectDuration)
    && (exists k :: k in net.tasks && fw.tasks[k].earlyFinish == fw.projectDuration)
  }

  /** With the worklist drained, every unprocessed task still waits on a predecessor. */
  lemma DrainedIsStuck(net: Network, tasks: map<string, Task>, inDeg: map<string, int>,
                       processed: seq<string>, doneSet: set<string>)
    requires KahnInvariant(net, tasks, inDeg, [], processed, doneSet)
    ensures Stuck(net, doneSet)
  {
    forall x | x in net.tasks && x !in doneSet
      ensures Waiting(net, doneSet, x)
    {
      CountOutsideZero(net.tasks[x].predecessors, doneSet);
    }
  }

  /** A task naming an unknown predecessor never appears in a predecessors-first order. */
  lemma DanglingNeverProcessed(net: Network, processed: seq<string>)
    requires PredecessorsFirst(net, processed)
    ensures forall k :: k in net.tasks &&
              (exists j :: 0 <= j < |net.tasks[k].predecessors| && net.tasks[k].predecessors[j] !in net.tasks)
              ==> k !in processed
  {
    forall k | k in net.tasks && k in processed
      ensures forall j :: 0 <= j < |net.tasks[k].predecessors| ==> net.tasks[k].predecessors[j] in net.tasks
    {
      ProcessedPredecessorsKnown(net, processed, k);
    }
  }

  /** Before the first dequeue: nothing processed, counters at the in-degrees, the roots queued. */
  lemma KahnStart(net: Network, inDeg: map<string, int>)
    requires WellFormed(net)
    requires inDeg == map k | k in net.tasks :: |net.tasks[k].predecessors|
    ensures KahnInvariant(net, net.tasks, inDeg, Roots(net.order, net.tasks), [], {})
  {
  }

  /**
    With the worklist drained, the processing order lists each task once,
    after its predecessors; no task with a dangling predecessor is in it;
    and on an acyclic network with known predecessors every task is.
  */
  lemma DrainedOrder(net: Network, tasks: map<string, Task>, inDeg: map<string, int>,
                     processed: seq<string>, doneSet: set<string>)
    requires WellFormed(net)
    requires KahnInvariant(net, tasks, inDeg, [], processed, doneSet)
    ensures Distinct(processed) && PredecessorsFirst(net, processed)
    ensures forall k :: k in net.tasks &&
              (exists j :: 0 <= j < |net.tasks[k].predecessors| && net.tasks[k].predecessors[j] !in net.tasks)
              ==> k !in processed
    ensures PredecessorsKnown(net) && !HasCycle(net) ==> forall k :: k in net.tasks ==> k in processed
  {
    DanglingNeverProcessed(net, processed);
    DrainedIsStuck(net, tasks, inDeg, processed, doneSet);
    if PredecessorsKnown(net) && !HasCycle(net) {
      KahnComplete(net, doneSet);
    }
  }

  /** With the worklist drained, the tasks and their largest early finish are the pass's result. */
  lemma DrainedForwardResult(net: Network, tasks: map<string, Task>, processed: seq<string>, doneSet: set<string>)
    requires WellFormed(net) && |net.order| > 0
    requires TimesInvariant(net, tasks, doneSet) && OrderInvariant(net, processed, doneSet)
    ensures ForwardResult(net, Network(net.order, tasks, MaxEarlyFinish(tasks, net.order)), processed)
  {
    var pd := MaxEarlyFinish(tasks, net.order);
    forall k | k in net.tasks
      ensures tasks[k].earlyFinish <= pd
    {
      var i :| 0 <= i < |net.order| && net.order[i] == k;
    }
    var i :| 0 <= i < |net.order| && tasks[net.order[i]].earlyFinish == pd;
    assert net.order[i] in net.tasks;
  }

  /**
    Kahn's forward pass. `processed` is the order in which the worklist hands
    tasks out. A task is processed only after all its predecessors, and only
    processed tasks receive early times; a task with a dangling predecessor id
    is never processed. When the graph is acyclic and every predecessor id
    resolves, every task is processed exactly once.
  */
  method CalculateForwardPass(net: Network) returns (r: Result<Network, CpmError>, processed: seq<string>)
    requires WellFormed(net)
    ensures r.Failure? <==> |net.order| == 0
    ensures Distinct(processed)
    ensures PredecessorsFirst(net, processed)
    ensures forall k :: k in net.tasks &&
              (exists j :: 0 <= j < |net.tasks[k].predecessors| && net.tasks[k].predecessors[j] !in net.tasks)
              ==> k !in processed
    ensures PredecessorsKnown(net) && !HasCycle(net) ==> forall k :: k in net.tasks ==> k in processed
    ensures r.Success? ==> ForwardResult(net, r.value, processed)
  {
    var tasks := net.tasks;
    var inDeg: map<string, int> := map k | k in net.tasks :: |net.tasks[k].predecessors|;
    var queue := Roots(net.order, net.tasks);
    processed := [];
    ghost var doneSet: set<string> := {};
    KahnStart(net, inDeg);
    while |queue| > 0
      invariant KahnInvariant(net, tasks, inDeg, queue, processed, doneSet)
      decreases net.tasks.Keys - doneSet
    {
      tasks, inDeg, queue, processed, doneSet := ProcessNext(net, tasks, inDeg, queue, processed, doneSet);
    }
    DrainedOrder(net, tasks, inDeg, processed, doneSet);
    if |net.order| == 0 {
      return Failure(EmptyNetwork), processed;
    }
    DrainedForwardResult(net, tasks, processed, doneSet);
    r := Success(Network(net.order, tasks, MaxEarlyFinish(tasks, net.order)));
  }
}

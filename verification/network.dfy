/**
  The project network: an insertion-ordered dictionary from task id to task,
  the successor lists derived from the predecessor lists, the successor graph
  and the per-iteration sampling round.
*/
module ProjectNetwork {
  import opened Seqs
  import opened TaskModel

  /**
    `order` is the dictionary's iteration (insertion) order, `tasks` its
    contents; `projectDuration` is the scalar the forward pass writes.
  */
  datatype Network = Network(order: seq<string>, tasks: map<string, Task>, projectDuration: real)

  /** The dictionary shape: each id listed once, in order, keyed by the task's own id. */
  predicate KeyedById(order: seq<string>, tasks: map<string, Task>) {
    && Distinct(order)
    && (forall k :: k in tasks ==> k in order)
    && (forall i :: 0 <= i < |order| ==> order[i] in tasks)
    && (forall k :: k in tasks ==> tasks[k].id == k)
  }

  /**
    Successors of `p` as inversion builds them: walking the tasks in
    dictionary order, each task is appended once per occurrence of `p` among
    its predecessors.
  */
  function SuccessorsOf(order: seq<string>, tasks: map<string, Task>, p: string): seq<string>
    requires forall i :: 0 <= i < |order| ==> order[i] in tasks
  {
    if |order| == 0 then []
    else
      var last := order[|order| - 1];
      SuccessorsOf(order[..|order| - 1], tasks, p) + Repeat(last, Count(tasks[last].predecessors, p))
  }

  /** Replaces every task's successor list by the inversion of the predecessor lists. */
  function BuildSuccessors(order: seq<string>, tasks: map<string, Task>): (r: map<string, Task>)
    requires KeyedById(order, tasks)
    ensures r.Keys == tasks.Keys
    ensures forall k :: k in r ==> r[k] == tasks[k].(successors := SuccessorsOf(order, tasks, k))
  {
    map k | k in tasks :: tasks[k].(successors := SuccessorsOf(order, tasks, k))
  }

  /** A network as construction leaves it: keyed by id, successors the inverse of predecessors. */
  predicate WellFormed(net: Network) {
    && KeyedById(net.order, net.tasks)
    && forall k :: k in net.tasks ==> net.tasks[k].successors == SuccessorsOf(net.order, net.tasks, k)
  }

  /** Two task maps differ at most in schedule fields. */
  predicate SameStructure(a: map<string, Task>, b: map<string, Task>) {
    && a.Keys == b.Keys
    && forall k :: k in a ==> SameEstimate(a[k], b[k])
  }

  lemma {:induction false} SuccessorsOfCount(order: seq<string>, tasks: map<string, Task>, p: string, x: string)
    requires Distinct(order)
    requires forall i :: 0 <= i < |order| ==> order[i] in tasks
    ensures Count(SuccessorsOf(order, tasks, p), x) ==
            if x in order then Count(tasks[x].predecessors, p) else 0
  {
    if |order| > 0 {
      var init := order[..|order| - 1];
      var last := order[|order| - 1];
      assert Distinct(init);
      SuccessorsOfCount(init, tasks, p, x);
      CountConcat(SuccessorsOf(init, tasks, p), Repeat(last, Count(tasks[last].predecessors, p)), x);
      CountRepeat(last, Count(tasks[last].predecessors, p), x);
      assert order == init + [last];
      if x == last {
        assert x !in init;
      }
    }
  }

  /**
    Inversion is exact: `x` occurs in the successor list of `p` exactly as many
    times as `p` occurs among the predecessors of `x`; predecessor ids that are
    not tasks produce no successor entry.
  */
  lemma Inversion(net: Network, p: string, x: string)
    requires WellFormed(net)
    requires p in net.tasks
    ensures Count(net.tasks[p].successors, x) ==
            if x in net.tasks then Count(net.tasks[x].predecessors, p) else 0
  {
    SuccessorsOfCount(net.order, net.tasks, p, x);
  }

  /** Construction's successor pass establishes the inversion for any keyed dictionary. */
  lemma BuildSuccessorsInverts(order: seq<string>, tasks: map<string, Task>, p: string, x: string)
    requires KeyedById(order, tasks)
    requires p in tasks
    ensures WellFormed(Network(order, BuildSuccessors(order, tasks), 0.0))
    ensures Count(BuildSuccessors(order, tasks)[p].successors, x) ==
            if x in tasks then Count(tasks[x].predecessors, p) else 0
  {
    var built := BuildSuccessors(order, tasks);
    SuccessorsOfPredecessorsOnly(order, tasks, built);
    SuccessorsOfCount(order, tasks, p, x);
  }

  /** The successor lists read only predecessor lists, which the successor pass leaves alone. */
  lemma {:induction false} SuccessorsOfPredecessorsOnly(order: seq<string>, a: map<string, Task>, b: map<string, Task>)
    requires forall i :: 0 <= i < |order| ==> order[i] in a && order[i] in b
    requires forall i :: 0 <= i < |order| ==> a[order[i]].predecessors == b[order[i]].predecessors
    ensures forall p :: SuccessorsOf(order, a, p) == SuccessorsOf(order, b, p)
  {
    if |order| > 0 {
      SuccessorsOfPredecessorsOnly(order[..|order| - 1], a, b);
    }
  }

  /** Successor graphs only change with the predecessor lists. */
  lemma SameStructureWellFormed(net: Network, tasks: map<string, Task>)
    requires WellFormed(net)
    requires SameStructure(tasks, net.tasks)
    ensures WellFormed(net.(tasks := tasks))
  {
    SuccessorsOfPredecessorsOnly(net.order, net.tasks, tasks);
  }

  // ---- the successor graph ----

  /** An edge runs from `a` to each of its successors. */
  predicate Edge(net: Network, a: string, b: string) {
    a in net.tasks && b in net.tasks && b in net.tasks[a].successors
  }

  /** Every successor id of every task is itself a task. */
  predicate SuccessorsKnown(net: Network) {
    forall a, b :: a in net.tasks && b in net.tasks[a].successors ==> b in net.tasks
  }

  /** In a well-formed network an edge a -> b is exactly `a` listed as a predecessor of `b`. */
  lemma EdgeIsPredecessor(net: Network, a: string, b: string)
    requires WellFormed(net)
    ensures Edge(net, a, b) <==> a in net.tasks && b in net.tasks && a in net.tasks[b].predecessors
  {
    if a in net.tasks {
      Inversion(net, a, b);
    }
  }

  /** The successor lists are the exact inverse of the predecessor lists, entry for entry. */
  ghost predicate Inverted(net: Network) {
    && SuccessorsKnown(net)
    && forall a, x {:trigger Count(net.tasks[a].successors, x)} :: a in net.tasks && x in net.tasks ==>
         Count(net.tasks[a].successors, x) == Count(net.tasks[x].predecessors, a)
  }

  lemma WellFormedInverted(net: Network)
    requires WellFormed(net)
    ensures Inverted(net)
  {
    WellFormedSuccessorsKnown(net);
    forall a, x | a in net.tasks && x in net.tasks
      ensures Count(net.tasks[a].successors, x) == Count(net.tasks[x].predecessors, a)
    {
      Inversion(net, a, x);
    }
  }

  lemma WellFormedSuccessorsKnown(net: Network)
    requires WellFormed(net)
    ensures SuccessorsKnown(net)
  {
    forall a, b | a in net.tasks && b in net.tasks[a].successors
      ensures b in net.tasks
    {
      Inversion(net, a, b);
    }
  }

  ghost predicate IsPath(net: Network, p: seq<string>) {
    && |p| >= 1
    && (forall i :: 0 <= i < |p| ==> p[i] in net.tasks)
    && (forall i :: 0 <= i < |p| - 1 ==> Edge(net, p[i], p[i + 1]))
  }

  /** A path of at least one edge that returns to its start; a self-loop is one. */
  ghost predicate IsCycle(net: Network, p: seq<string>) {
    |p| >= 2 && IsPath(net, p) && p[0] == p[|p| - 1]
  }

  ghost predicate HasCycle(net: Network) {
    exists p :: IsCycle(net, p)
  }

  /** Every predecessor id names a task of the network. */
  predicate PredecessorsKnown(net: Network) {
    forall k, p :: k in net.tasks && p in net.tasks[k].predecessors ==> p in net.tasks
  }

  // ---- sampling round ----

  /**
    Resets every task and samples its duration from its own Beta draw
    `draws[id]` (degenerate tasks keep the reset duration 0); the
    network's structure is untouched.
  */
  function GenerateAllDurations(net: Network, draws: map<string, real>): (r: Network)
    requires net.tasks.Keys <= draws.Keys
    ensures r.order == net.order && r.projectDuration == net.projectDuration
    ensures SameStructure(r.tasks, net.tasks)
    ensures forall k :: k in r.tasks ==>
      && r.tasks[k].earlyStart == 0.0 && r.tasks[k].earlyFinish == 0.0
      && r.tasks[k].lateStart == 0.0 && r.tasks[k].lateFinish == 0.0
      && r.tasks[k].totalFloat == 0.0 && !r.tasks[k].isCritical
    ensures forall k :: k in r.tasks && Degenerate(net.tasks[k]) ==> r.tasks[k].duration == 0.0
    ensures forall k :: k in r.tasks && !Degenerate(net.tasks[k]) ==>
      r.tasks[k].duration - net.tasks[k].optimistic
        == draws[k] * (net.tasks[k].pessimistic - net.tasks[k].optimistic)
  {
    net.(tasks := map k | k in net.tasks :: ResetAndSample(net.tasks[k], draws[k]))
  }

  /** Draws in [0, 1] and non-negative estimates give durations that are never negative. */
  lemma SampledDurationsNonNegative(net: Network, draws: map<string, real>)
    requires net.tasks.Keys <= draws.Keys
    requires forall k :: k in net.tasks ==>
               0.0 <= draws[k] <= 1.0 && 0.0 <= net.tasks[k].optimistic
    ensures forall k :: k in net.tasks ==> GenerateAllDurations(net, draws).tasks[k].duration >= 0.0
  {
  }
}

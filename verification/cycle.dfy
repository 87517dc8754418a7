/**
  Construction-time validation: a depth-first search over the successor graph
  with a visited set and a recursion-stack set rejects any circular dependency.
*/
module CycleCheck {
  import opened Wrappers
  import opened TaskModel
  import opened ProjectNetwork

  /** The error construction raises, naming the task whose search found the cycle. */
  datatype CycleError = CircularDependency(taskId: string)

  /** A rank that strictly decreases along every edge of the successor graph. */
  ghost predicate Ranked(net: Network, rank: map<string, nat>) {
    && net.tasks.Keys <= rank.Keys
    && forall a, b :: Edge(net, a, b) ==> rank[b] < rank[a]
  }

  lemma {:induction false} RankDecreasesAlongPath(net: Network, rank: map<string, nat>, p: seq<string>)
    requires Ranked(net, rank)
    requires IsPath(net, p) && |p| >= 2
    ensures rank[p[|p| - 1]] < rank[p[0]]
  {
    if |p| > 2 {
      RankDecreasesAlongPath(net, rank, p[1..]);
    }
  }

  /** A ranked graph has no cycle. */
  lemma RankedAcyclic(net: Network, rank: map<string, nat>)
    requires Ranked(net, rank)
    ensures !HasCycle(net)
  {
    forall p | IsCycle(net, p)
      ensures false
    {
      RankDecreasesAlongPath(net, rank, p);
    }
  }

  /**
    The search state: `visited` nodes are either on the recursion stack
    (the ghost `stack`, a path in the graph) or finished; finished nodes carry
    a rank below `clock`, and every edge out of a finished node leads to a
    finished node of smaller rank.
  */
  ghost predicate SearchState(net: Network, visited: set<string>, onStack: set<string>,
                              stack: seq<string>, rank: map<string, nat>, clock: nat) {
    && visited <= net.tasks.Keys
    && onStack <= visited
    && (forall x :: x in onStack <==> x in stack)
    && (forall i :: 0 <= i < |stack| ==> stack[i] in net.tasks)
    && (forall i :: 0 <= i < |stack| - 1 ==> Edge(net, stack[i], stack[i + 1]))
    && rank.Keys == visited - onStack
    && (forall b, c :: b in rank && Edge(net, b, c) ==> c in rank && rank[c] < rank[b])
    && (forall b :: b in rank ==> rank[b] < clock)
  }

  /** Meeting a node of the recursion stack again closes a cycle. */
  lemma CycleFromStack(net: Network, stack: seq<string>, u: string, k: nat)
    requires k < |stack| && stack[k] == u
    requires forall i :: 0 <= i < |stack| ==> stack[i] in net.tasks
    requires forall i :: 0 <= i < |stack| - 1 ==> Edge(net, stack[i], stack[i + 1])
    requires Edge(net, stack[|stack| - 1], u)
    ensures HasCycle(net)
  {
    var p := stack[k..] + [u];
    assert forall i :: 0 <= i < |p| - 1 ==> Edge(net, p[i], p[i + 1]) by {
      forall i | 0 <= i < |p| - 1
        ensures Edge(net, p[i], p[i + 1])
      {
        if i < |stack| - k - 1 {
          assert p[i] == stack[k + i] && p[i + 1] == stack[k + i + 1];
        }
      }
    }
    assert IsCycle(net, p);
  }

  /**
    The recursive search from `u`. It reports a cycle only when one exists;
    otherwise `u` and everything reached from it are finished on return and the
    recursion stack is as it was.
  */
  method SearchFrom(net: Network, u: string, visited: set<string>, onStack: set<string>,
                    ghost stack: seq<string>, ghost rank: map<string, nat>, ghost clock: nat)
    returns (found: bool, visitedOut: set<string>, ghost rankOut: map<string, nat>, ghost clockOut: nat)
    requires SuccessorsKnown(net)
    requires u in net.tasks
    requires SearchState(net, visited, onStack, stack, rank, clock)
    requires |stack| > 0 ==> Edge(net, stack[|stack| - 1], u)
    ensures found ==> HasCycle(net)
    ensures !found ==> SearchState(net, visitedOut, onStack, stack, rankOut, clockOut)
    ensures !found ==> u in rankOut && visited <= visitedOut && rank.Keys <= rankOut.Keys
    decreases net.tasks.Keys - visited
  {
    if u in onStack {
      ghost var k :| 0 <= k < |stack| && stack[k] == u;
      CycleFromStack(net, stack, u, k);
      return true, visited, rank, clock;
    }
    if u in visited {
      return false, visited, rank, clock;
    }
    visitedOut := visited + {u};
    rankOut, clockOut := rank, clock;
    var succ := net.tasks[u].successors;
    var i := 0;
    while i < |succ|
      invariant 0 <= i <= |succ|
      invariant visited + {u} <= visitedOut
      invariant SearchState(net, visitedOut, onStack + {u}, stack + [u], rankOut, clockOut)
      invariant forall j :: 0 <= j < i ==> succ[j] in rankOut
      invariant rank.Keys <= rankOut.Keys
    {
      var f;
      f, visitedOut, rankOut, clockOut :=
        SearchFrom(net, succ[i], visitedOut, onStack + {u}, stack + [u], rankOut, clockOut);
      if f {
        return true, visitedOut, rankOut, clockOut;
      }
      i := i + 1;
    }
    rankOut := rankOut[u := clockOut];
    clockOut := clockOut + 1;
    found := false;
  }

  /**
    Runs the search from every task in dictionary order. It fails exactly when
    the successor graph has a cycle, self-loops included.
  */
  method Validate(net: Network) returns (r: Result<(), CycleError>)
    requires WellFormed(net)
    ensures r.Failure? <==> HasCycle(net)
    ensures r.Failure? ==> r.error.taskId in net.tasks
  {
    WellFormedSuccessorsKnown(net);
    var visited: set<string> := {};
    ghost var rank: map<string, nat> := map[];
    ghost var clock: nat := 0;
    for i := 0 to |net.order|
      invariant SearchState(net, visited, {}, [], rank, clock)
      invariant forall j :: 0 <= j < i ==> net.order[j] in visited
    {
      var id := net.order[i];
      if id !in visited {
        var found;
        found, visited, rank, clock := SearchFrom(net, id, visited, {}, [], rank, clock);
        if found {
          return Failure(CircularDependency(id));
        }
      }
    }
    assert Ranked(net, rank);
    RankedAcyclic(net, rank);
    return Success(());
  }

  /** The network construction would build from a keyed dictionary. */
  function Built(order: seq<string>, tasks: map<string, Task>): (net: Network)
    requires KeyedById(order, tasks)
    ensures WellFormed(net)
    ensures net.order == order && net.projectDuration == 0.0
  {
    var net := Network(order, BuildSuccessors(order, tasks), 0.0);
    SuccessorsOfPredecessorsOnly(order, tasks, net.tasks);
    net
  }

  /**
    Network construction: build the successor lists by inversion, then
    validate. It raises exactly when the resulting graph has a cycle.
  */
  method NewNetwork(order: seq<string>, tasks: map<string, Task>) returns (r: Result<Network, CycleError>)
    requires KeyedById(order, tasks)
    ensures r.Success? <==> !HasCycle(Built(order, tasks))
    ensures r.Success? ==> r.value == Built(order, tasks) && WellFormed(r.value)
    ensures r.Failure? ==> r.error.taskId in tasks
  {
    var net := Built(order, tasks);
    var v := Validate(net);
    if v.Failure? {
      return Failure(v.error);
    }
    return Success(net);
  }
}

/**
  A three-task project on which the dictionary-order backward pass goes
  wrong: a (duration 2) precedes b (duration 3) and c (duration 1), and the
  dictionary lists a, b, c. The forward pass gives a [0, 2], b [2, 5],
  c [2, 3] and a project duration of 5, so the textbook critical path is a, b.
  The facts hold for any three distinct ids; `Tasks` is the instance A, B, C.
*/
module Scenario {
  import opened Seqs
  import opened TaskModel
  import opened ForwardPass
  import opened Backward
  import opened NetworkCalculation

  /**
    A task as the forward pass leaves it: duration and early times set, late
    times still reset. The estimates d/2, d, 2d are not degenerate, and a
    Beta draw of 1/3 samples the duration d from them.
  */
  function AfterForward(id: string, preds: seq<string>, succs: seq<string>, d: real, es: real): Task {
    Task(id, id, "", [], preds, d / 2.0, d, d * 2.0, d, es, es + d, 0.0, 0.0, 0.0, false, succs)
  }

  function Tasks(): map<string, Task> {
    map["A" := AfterForward("A", [], ["B", "C"], 2.0, 0.0),
        "B" := AfterForward("B", ["A"], [], 3.0, 2.0),
        "C" := AfterForward("C", ["A"], [], 1.0, 2.0)]
  }

  /** The fields of `x` the schedule reads, as the forward pass leaves them. */
  predicate Shaped(x: Task, preds: seq<string>, succs: seq<string>, d: real, es: real) {
    && x.predecessors == preds && x.successors == succs
    && x.duration == d && x.earlyStart == es && x.earlyFinish == es + d && x.lateStart == 0.0
  }

  /** The three tasks under the distinct ids a, b, c, and nothing else. */
  predicate Example(t: map<string, Task>, a: string, b: string, c: string) {
    && a != b && a != c && b != c
    && t.Keys == {a, b, c}
    && Shaped(t[a], [], [b, c], 2.0, 0.0)
    && Shaped(t[b], [a], [], 3.0, 2.0)
    && Shaped(t[c], [a], [], 1.0, 2.0)
  }

  lemma TasksAreExample()
    ensures Example(Tasks(), "A", "B", "C")
  {
  }

  /** With only b critical, the critical path over the listing a, b, c is b alone. */
  lemma CriticalPathOnlySecond(r: map<string, Task>, a: string, b: string, c: string)
    requires a in r && b in r && c in r
    requires !r[a].isCritical && r[b].isCritical && !r[c].isCritical
    ensures CriticalPath([a, b, c], r) == [b]
  {
    var order := [a, b, c];
    assert order[1..] == [b, c] && order[1..][1..] == [c] && order[1..][1..][1..] == [];
    assert CriticalPath([c], r) == [];
    assert CriticalPath([b, c], r) == [b];
  }

  /** With a and b critical and c not, the critical path over the listing a, b, c is a, b. */
  lemma CriticalPathFirstTwo(r: map<string, Task>, a: string, b: string, c: string)
    requires a in r && b in r && c in r
    requires r[a].isCritical && r[b].isCritical && !r[c].isCritical
    ensures CriticalPath([a, b, c], r) == [a, b]
  {
    var order := [a, b, c];
    assert order[1..] == [b, c] && order[1..][1..] == [c] && order[1..][1..][1..] == [];
    assert CriticalPath([c], r) == [];
    assert CriticalPath([b, c], r) == [b];
  }

  /** The smaller late start of two tasks. */
  lemma MinLateStartOfTwo(t: map<string, Task>, x: string, y: string)
    requires x in t && y in t
    ensures MinLateStart(t, [x, y]) == if t[x].lateStart <= t[y].lateStart then t[x].lateStart else t[y].lateStart
  {
    assert [x, y][1..] == [y];
  }

  /** In a textbook late schedule, a task with successors y and z finishes at the smaller of their late starts. */
  lemma TextbookReadsPair(r: map<string, Task>, pd: real, x: string, y: string, z: string)
    requires TextbookLate(r, pd)
    requires x in r && y in r && z in r && r[x].successors == [y, z]
    ensures r[x].lateFinish == MinLateStart(r, [y, z])
  {
    var succ := r[x].successors;
    assert forall j :: 0 <= j < |succ| ==> succ[j] in r;
  }

  /** The early times are the forward pass's: every task obeys its equations, and the project lasts 5. */
  lemma ForwardTimes(t: map<string, Task>, a: string, b: string, c: string)
    requires Example(t, a, b, c)
    ensures forall k :: k in t ==> Scheduled(t, k)
    ensures MaxEarlyFinish(t, [a, b, c]) == 5.0
    ensures SuccessorsIn(t)
  {
    assert EarlyStartOf(t, [a]) == 2.0 by {
      assert MaxEarlyFinish(t, [a]) == t[a].earlyFinish;
    }
    var ids := [a, b, c];
    var m := MaxEarlyFinish(t, ids);
    assert ids[1] == b;
    assert m <= 5.0 by {
      var i :| 0 <= i < 3 && t[ids[i]].earlyFinish == m;
      assert ids[i] in t.Keys;
    }
  }

  /** Visiting c, b, a lists every successor before the task that names it, and the early times fit a 5-long project. */
  lemma ReverseOrderIsTopological(t: map<string, Task>, a: string, b: string, c: string)
    requires Example(t, a, b, c)
    ensures ReverseTopological(t, [c, b, a])
    ensures EarlyTimesConsistent(t, 5.0)
  {
    var visit := [c, b, a];
    assert visit[..2] == [c, b];
  }

  /**
    Visiting in dictionary order, a is visited while b and c still hold the
    reset late start 0: a gets late finish 0 and float -2, and only b is reported critical.
  */
  lemma DictionaryOrderMissesFirst(t: map<string, Task>, a: string, b: string, c: string)
    requires Example(t, a, b, c)
    ensures SuccessorsIn(t)
    ensures var r := BackwardPass(t, 5.0, [a, b, c]);
            && r[a].lateFinish == 0.0 && r[a].totalFloat == -2.0 && !r[a].isCritical
            && CriticalPath([a, b, c], r) == [b]
  {
    ForwardTimes(t, a, b, c);
    var visit := [a, b, c];
    BackwardPassReadsEntry(t, 5.0, visit, 0);
    MinLateStartOfTwo(t, b, c);
    var r := BackwardPass(t, 5.0, visit);
    assert a in visit && b in visit && c in visit;
    assert OnlyLateTimesChanged(r[a], t[a]) && OnlyLateTimesChanged(r[b], t[b])
           && OnlyLateTimesChanged(r[c], t[c]);
    CriticalPathOnlySecond(r, a, b, c);
  }

  /** Visiting c, b, a: the sinks finish with the project, and a finishes when b must start. */
  lemma ReverseOrderLateFinishes(t: map<string, Task>, a: string, b: string, c: string)
    requires Example(t, a, b, c)
    ensures SuccessorsIn(t)
    ensures ReverseTopological(t, [c, b, a])
    ensures var r := BackwardPass(t, 5.0, [c, b, a]);
            r[a].lateFinish == 2.0 && r[b].lateFinish == 5.0 && r[c].lateFinish == 5.0
  {
    ForwardTimes(t, a, b, c);
    ReverseOrderIsTopological(t, a, b, c);
    var visit := [c, b, a];
    assert forall x :: x in t ==> x in visit;
    BackwardPassTextbook(t, 5.0, visit);
    var r := BackwardPass(t, 5.0, visit);
    assert OnlyLateTimesChanged(r[a], t[a]) && OnlyLateTimesChanged(r[b], t[b])
           && OnlyLateTimesChanged(r[c], t[c]);
    TextbookReadsPair(r, 5.0, a, b, c);
    MinLateStartOfTwo(r, b, c);
  }

  /**
    Visiting in reverse processing order, b and c are final when a reads
    them: a gets late finish 2 and float 0, and the critical path is a, b.
  */
  lemma ReverseOrderFindsFirst(t: map<string, Task>, a: string, b: string, c: string)
    requires Example(t, a, b, c)
    ensures SuccessorsIn(t)
    ensures ReverseTopological(t, [c, b, a])
    ensures var r := BackwardPass(t, 5.0, [c, b, a]);
            && r[a].lateFinish == 2.0 && r[a].totalFloat == 0.0 && r[a].isCritical
            && CriticalPath([a, b, c], r) == [a, b]
  {
    ReverseOrderLateFinishes(t, a, b, c);
    var visit := [c, b, a];
    var r := BackwardPass(t, 5.0, visit);
    assert a in visit && b in visit && c in visit;
    assert OnlyLateTimesChanged(r[a], t[a]) && OnlyLateTimesChanged(r[b], t[b])
           && OnlyLateTimesChanged(r[c], t[c]);
    CriticalPathFirstTwo(r, a, b, c);
  }
}

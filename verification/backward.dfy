/**
  The backward pass of the critical path method. The tasks are visited in an
  explicit order; each visit sets late finish (the project duration for a task
  without successors, otherwise the smallest late start currently stored among
  its successors), late start, total float and the critical flag. Nothing
  requires the order to put successors first: a visit reads whatever late
  start a successor holds at that moment.
*/
module Backward {
  import opened Seqs
  import opened TaskModel

  /** Total float below this magnitude marks a task critical. */
  const Tolerance: real := 0.001

  function Abs(x: real): (r: real)
    ensures r >= 0.0 && (r == x || r == -x)
  {
    if x < 0.0 then -x else x
  }

  /** Every successor id names a task of the map. */
  predicate SuccessorsIn(tasks: map<string, Task>) {
    forall a, b :: a in tasks && b in tasks[a].successors ==> b in tasks
  }

  /** The smallest late start currently stored among the tasks named by `ids`. */
  function MinLateStart(tasks: map<string, Task>, ids: seq<string>): (m: real)
    requires |ids| > 0
    requires forall i :: 0 <= i < |ids| ==> ids[i] in tasks
    ensures forall i :: 0 <= i < |ids| ==> m <= tasks[ids[i]].lateStart
    ensures exists i :: 0 <= i < |ids| && tasks[ids[i]].lateStart == m
  {
    if |ids| == 1 then tasks[ids[0]].lateStart
    else
      var rest := MinLateStart(tasks, ids[1..]);
      if tasks[ids[0]].lateStart <= rest then tasks[ids[0]].lateStart else rest
  }

  lemma {:induction false} MinLateStartFrame(a: map<string, Task>, b: map<string, Task>, ids: seq<string>)
    requires |ids| > 0
    requires forall i :: 0 <= i < |ids| ==> ids[i] in a && ids[i] in b
    requires forall i :: 0 <= i < |ids| ==> a[ids[i]].lateStart == b[ids[i]].lateStart
    ensures MinLateStart(a, ids) == MinLateStart(b, ids)
  {
    if |ids| > 1 {
      MinLateStartFrame(a, b, ids[1..]);
    }
  }

  /** `a` is `b` with at most its late times, float and flag changed. */
  predicate OnlyLateTimesChanged(a: Task, b: Task) {
    a == b.(lateStart := a.lateStart, lateFinish := a.lateFinish, totalFloat := a.totalFloat,
            isCritical := a.isCritical)
  }

  /** The equations tying late start, float and flag to the late finish, whatever that was. */
  predicate LateConsistent(t: Task) {
    && t.lateStart == t.lateFinish - t.duration
    && t.totalFloat == t.lateStart - t.earlyStart
    && (t.isCritical <==> Abs(t.totalFloat) < Tolerance)
  }

  /** One iteration of the backward loop: the visit of task `k`. */
  function VisitLate(tasks: map<string, Task>, pd: real, k: string): (r: map<string, Task>)
    requires k in tasks && SuccessorsIn(tasks)
    ensures r.Keys == tasks.Keys
    ensures forall x :: x in tasks && x != k ==> r[x] == tasks[x]
    ensures OnlyLateTimesChanged(r[k], tasks[k]) && LateConsistent(r[k])
    ensures |tasks[k].successors| == 0 ==> r[k].lateFinish == pd
    ensures |tasks[k].successors| > 0 ==> r[k].lateFinish == MinLateStart(tasks, tasks[k].successors)
  {
    var t := tasks[k];
    var lf := if |t.successors| == 0 then pd else MinLateStart(tasks, t.successors);
    var ls := lf - t.duration;
    var tf := ls - t.earlyStart;
    tasks[k := t.(lateFinish := lf, lateStart := ls, totalFloat := tf, isCritical := Abs(tf) < Tolerance)]
  }

  /** A visited task's late times: consistent, and a sink finishes with the project. */
  predicate LateDone(t: Task, pd: real) {
    LateConsistent(t) && (|t.successors| == 0 ==> t.lateFinish == pd)
  }

  lemma SuccessorsInKept(tasks: map<string, Task>, r: map<string, Task>)
    requires SuccessorsIn(tasks) && r.Keys == tasks.Keys
    requires forall x :: x in tasks ==> OnlyLateTimesChanged(r[x], tasks[x])
    ensures SuccessorsIn(r)
  {
    forall a, b | a in r && b in r[a].successors
      ensures b in r
    {
      assert r[a].successors == tasks[a].successors;
    }
  }

  /** The visit of `visit[n]` extends the loop's facts from `visit[..n]` to `visit[..n + 1]`. */
  lemma BackwardStep(tasks: map<string, Task>, pd: real, visit: seq<string>, n: nat,
                     prev: map<string, Task>, r: map<string, Task>)
    requires n < |visit| && SuccessorsIn(prev)
    requires forall i :: 0 <= i < |visit| ==> visit[i] in tasks
    requires prev.Keys == tasks.Keys
    requires forall x :: x in tasks ==> OnlyLateTimesChanged(prev[x], tasks[x])
    requires forall x :: x in tasks && x !in visit[..n] ==> prev[x] == tasks[x]
    requires forall x :: x in visit[..n] ==> LateDone(prev[x], pd)
    requires r == VisitLate(prev, pd, visit[n])
    ensures forall x :: x in tasks ==> OnlyLateTimesChanged(r[x], tasks[x])
    ensures forall x :: x in tasks && x !in visit[..n + 1] ==> r[x] == tasks[x]
    ensures forall x :: x in visit[..n + 1] ==> LateDone(r[x], pd)
  {
    SliceSnoc(visit, n);
  }

  /**
    The backward loop over `visit`, one visit per element, left to right. Every
    visited task ends with consistent late times and a sink ends at the project
    duration; unvisited tasks are untouched, and no other field of any task
    changes.
  */
  function BackwardPass(tasks: map<string, Task>, pd: real, visit: seq<string>): (r: map<string, Task>)
    requires SuccessorsIn(tasks)
    requires forall i :: 0 <= i < |visit| ==> visit[i] in tasks
    ensures r.Keys == tasks.Keys
    ensures forall x :: x in tasks ==> OnlyLateTimesChanged(r[x], tasks[x])
    ensures forall x :: x in tasks && x !in visit ==> r[x] == tasks[x]
    ensures forall x :: x in visit ==> LateDone(r[x], pd)
    decreases |visit|
  {
    if |visit| == 0 then tasks
    else
      var n := |visit| - 1;
      var prev := BackwardPass(tasks, pd, visit[..n]);
      SuccessorsInKept(tasks, prev);
      var r := VisitLate(prev, pd, visit[n]);
      BackwardStep(tasks, pd, visit, n, prev, r);
      assert visit[..n + 1] == visit;
      r
  }

  /** The backward pass keeps every successor id resolvable. */
  lemma BackwardPassSuccessorsIn(tasks: map<string, Task>, pd: real, visit: seq<string>)
    requires SuccessorsIn(tasks)
    requires forall i :: 0 <= i < |visit| ==> visit[i] in tasks
    ensures SuccessorsIn(BackwardPass(tasks, pd, visit))
  {
    SuccessorsInKept(tasks, BackwardPass(tasks, pd, visit));
  }

  /**
    A task visited before any of its successors takes its late finish from
    the late starts they held on entry to the pass, not from their final ones.
  */
  lemma {:induction false} BackwardPassReadsEntry(tasks: map<string, Task>, pd: real, visit: seq<string>, i: nat)
    requires SuccessorsIn(tasks)
    requires forall j :: 0 <= j < |visit| ==> visit[j] in tasks
    requires Distinct(visit) && i < |visit|
    requires |tasks[visit[i]].successors| > 0
    requires forall j :: 0 <= j < i ==> visit[j] !in tasks[visit[i]].successors
    ensures BackwardPass(tasks, pd, visit)[visit[i]].lateFinish == MinLateStart(tasks, tasks[visit[i]].successors)
    decreases |visit|
  {
    var n := |visit| - 1;
    if i == n {
      LastVisitReadsEntry(tasks, pd, visit, n);
    } else {
      LaterVisitKeeps(tasks, pd, visit, i);
      PrefixFacts(visit, n, i);
      BackwardPassReadsEntry(tasks, pd, visit[..n], i);
    }
  }

  lemma PrefixFacts(visit: seq<string>, n: nat, i: nat)
    requires Distinct(visit) && i < n <= |visit|
    ensures Distinct(visit[..n]) && visit[..n][i] == visit[i]
    ensures forall j :: 0 <= j < i ==> visit[..n][j] == visit[j]
  {
  }

  lemma LastVisitReadsEntry(tasks: map<string, Task>, pd: real, visit: seq<string>, n: nat)
    requires SuccessorsIn(tasks)
    requires forall j :: 0 <= j < |visit| ==> visit[j] in tasks
    requires n + 1 == |visit| && |tasks[visit[n]].successors| > 0
    requires forall j :: 0 <= j < n ==> visit[j] !in tasks[visit[n]].successors
    ensures BackwardPass(tasks, pd, visit)[visit[n]].lateFinish == MinLateStart(tasks, tasks[visit[n]].successors)
  {
    var x := visit[n];
    var prev := BackwardPass(tasks, pd, visit[..n]);
    SuccessorsInKept(tasks, prev);
    var succ := tasks[x].successors;
    assert prev[x].successors == succ;
    forall j | 0 <= j < |succ|
      ensures succ[j] in prev && prev[succ[j]].lateStart == tasks[succ[j]].lateStart
    {
      assert succ[j] !in visit[..n];
    }
    MinLateStartFrame(prev, tasks, succ);
  }

  /** The last visit of a pass leaves every earlier-visited task as it was. */
  lemma LaterVisitKeeps(tasks: map<string, Task>, pd: real, visit: seq<string>, i: nat)
    requires SuccessorsIn(tasks)
    requires forall j :: 0 <= j < |visit| ==> visit[j] in tasks
    requires Distinct(visit) && i < |visit| - 1
    ensures BackwardPass(tasks, pd, visit)[visit[i]] == BackwardPass(tasks, pd, visit[..|visit| - 1])[visit[i]]
  {
    var n := |visit| - 1;
    var prev := BackwardPass(tasks, pd, visit[..n]);
    SuccessorsInKept(tasks, prev);
    assert visit[n] != visit[i];
  }

  /** Every task's successors are visited before it, and no task is visited twice. */
  predicate ReverseTopological(tasks: map<string, Task>, visit: seq<string>) {
    && Distinct(visit)
    && (forall i :: 0 <= i < |visit| ==> visit[i] in tasks)
    && forall i, j :: 0 <= i < |visit| && 0 <= j < |tasks[visit[i]].successors| ==>
         tasks[visit[i]].successors[j] in visit[..i]
  }

  lemma ReverseTopologicalPrefix(tasks: map<string, Task>, visit: seq<string>, n: nat)
    requires ReverseTopological(tasks, visit) && n <= |visit|
    ensures ReverseTopological(tasks, visit[..n])
  {
    forall i | 0 <= i < n
      ensures visit[..n][..i] == visit[..i]
    {
    }
  }

  /**
    With successors visited first, the late finish of the task visited `i`-th
    is the textbook one: the smallest final late start among its successors.
  */
  lemma {:induction false} TextbookLateFinishAt(tasks: map<string, Task>, pd: real, visit: seq<string>, i: nat)
    requires SuccessorsIn(tasks) && ReverseTopological(tasks, visit)
    requires i < |visit| && |tasks[visit[i]].successors| > 0
    ensures var r := BackwardPass(tasks, pd, visit);
            r[visit[i]].lateFinish == MinLateStart(r, tasks[visit[i]].successors)
    decreases |visit|
  {
    var n := |visit| - 1;
    ReverseTopologicalPrefix(tasks, visit, n);
    var prev := BackwardPass(tasks, pd, visit[..n]);
    BackwardPassSuccessorsIn(tasks, pd, visit[..n]);
    var r := BackwardPass(tasks, pd, visit);
    assert r == VisitLate(prev, pd, visit[n]);
    if i < n {
      TextbookLateFinishAt(tasks, pd, visit[..n], i);
      assert visit[..n][i] == visit[i];
    }
    TextbookStep(tasks, pd, visit, prev, r, i);
  }

  /** The last visit keeps the textbook equation of every earlier task and establishes its own. */
  lemma TextbookStep(tasks: map<string, Task>, pd: real, visit: seq<string>, prev: map<string, Task>,
                     r: map<string, Task>, i: nat)
    requires ReverseTopological(tasks, visit) && i < |visit|
    requires SuccessorsIn(prev) && prev.Keys == tasks.Keys
    requires forall y :: y in tasks ==> OnlyLateTimesChanged(prev[y], tasks[y])
    requires |tasks[visit[i]].successors| > 0
    requires i < |visit| - 1 ==>
               prev[visit[i]].lateFinish == MinLateStart(prev, tasks[visit[i]].successors)
    requires r == VisitLate(prev, pd, visit[|visit| - 1])
    ensures r[visit[i]].lateFinish == MinLateStart(r, tasks[visit[i]].successors)
  {
    var x := visit[i];
    var succ := tasks[x].successors;
    assert prev[x].successors == succ;
    forall j | 0 <= j < |succ|
      ensures succ[j] in prev && r[succ[j]].lateStart == prev[succ[j]].lateStart
    {
      assert succ[j] in visit[..i];
    }
    MinLateStartFrame(prev, r, succ);
  }

  /** Early times as a complete forward pass leaves them, with `pd` the largest early finish. */
  predicate EarlyTimesConsistent(tasks: map<string, Task>, pd: real) {
    && (forall x :: x in tasks ==>
          tasks[x].earlyFinish == tasks[x].earlyStart + tasks[x].duration && tasks[x].earlyFinish <= pd)
    && (forall a, b :: a in tasks && b in tasks[a].successors && b in tasks ==>
          tasks[a].earlyFinish <= tasks[b].earlyStart)
  }

  /**
    The textbook late schedule of the tasks in `visit`: `r` differs from `tasks`
    only in late fields; every listed task obeys the late-time equations; a sink
    finishes with the project; any other task finishes at the smallest late
    start among its successors in `r` itself.
  */
  ghost predicate LateSchedule(tasks: map<string, Task>, pd: real, visit: seq<string>, r: map<string, Task>) {
    && r.Keys == tasks.Keys
    && (forall x :: x in tasks ==> OnlyLateTimesChanged(r[x], tasks[x]))
    && (forall i :: 0 <= i < |visit| ==> visit[i] in tasks && LateDone(r[visit[i]], pd))
    && (forall i :: 0 <= i < |visit| ==>
          var succ := r[visit[i]].successors;
          |succ| > 0 && (forall j :: 0 <= j < |succ| ==> succ[j] in r) ==>
            r[visit[i]].lateFinish == MinLateStart(r, succ))
  }

  /** With successors visited first, the backward pass computes the textbook late schedule. */
  lemma BackwardPassSchedule(tasks: map<string, Task>, pd: real, visit: seq<string>)
    requires SuccessorsIn(tasks) && ReverseTopological(tasks, visit)
    ensures LateSchedule(tasks, pd, visit, BackwardPass(tasks, pd, visit))
  {
    var r := BackwardPass(tasks, pd, visit);
    forall i | 0 <= i < |visit|
      ensures LateDone(r[visit[i]], pd)
    {
    }
    forall i | 0 <= i < |visit| && |r[visit[i]].successors| > 0
      ensures r[visit[i]].lateFinish == MinLateStart(r, r[visit[i]].successors)
    {
      assert r[visit[i]].successors == tasks[visit[i]].successors;
      TextbookLateFinishAt(tasks, pd, visit, i);
    }
  }

  /** The position, earlier than `i`, at which the `k`-th successor of the `i`-th task is visited. */
  lemma SuccessorIndex(tasks: map<string, Task>, visit: seq<string>, i: nat, k: nat) returns (j: nat)
    requires ReverseTopological(tasks, visit)
    requires i < |visit| && k < |tasks[visit[i]].successors|
    ensures j < i && visit[j] == tasks[visit[i]].successors[k]
  {
    var s := tasks[visit[i]].successors[k];
    assert s in visit[..i];
    j :| 0 <= j < i && visit[..i][j] == s;
  }

  lemma EarlyAlongEdge(tasks: map<string, Task>, pd: real, a: string, k: nat)
    requires SuccessorsIn(tasks) && EarlyTimesConsistent(tasks, pd)
    requires a in tasks && k < |tasks[a].successors|
    ensures tasks[a].successors[k] in tasks
    ensures tasks[a].earlyFinish <= tasks[tasks[a].successors[k]].earlyStart
  {
    assert tasks[a].successors[k] in tasks[a].successors;
  }

  /** One task's entries of a late schedule, in terms of the input's fields. */
  lemma ScheduleAt(tasks: map<string, Task>, pd: real, visit: seq<string>, r: map<string, Task>, i: nat)
    requires SuccessorsIn(tasks) && LateSchedule(tasks, pd, visit, r) && i < |visit|
    ensures var x := visit[i];
            && x in tasks && x in r
            && r[x].successors == tasks[x].successors
            && r[x].earlyStart == tasks[x].earlyStart && r[x].duration == tasks[x].duration
            && r[x].lateStart == r[x].lateFinish - tasks[x].duration
            && r[x].totalFloat == r[x].lateStart - tasks[x].earlyStart
            && (r[x].isCritical <==> Abs(r[x].totalFloat) < Tolerance)
            && (|tasks[x].successors| == 0 ==> r[x].lateFinish == pd)
            && (|tasks[x].successors| > 0 ==>
                  (forall j :: 0 <= j < |tasks[x].successors| ==> tasks[x].successors[j] in r) &&
                  r[x].lateFinish == MinLateStart(r, tasks[x].successors))
  {
    var x := visit[i];
    assert OnlyLateTimesChanged(r[x], tasks[x]);
    assert LateDone(r[x], pd);
    forall j | 0 <= j < |tasks[x].successors|
      ensures tasks[x].successors[j] in r
    {
      assert tasks[x].successors[j] in tasks[x].successors;
    }
  }

  lemma EarlyFinishSum(tasks: map<string, Task>, pd: real, x: string)
    requires EarlyTimesConsistent(tasks, pd) && x in tasks
    ensures tasks[x].earlyFinish == tasks[x].earlyStart + tasks[x].duration && tasks[x].earlyFinish <= pd
  {
  }

  /** In a late schedule over a successors-first order, the `i`-th task's late finish is at least its early finish. */
  lemma {:induction false} LateCoversEarly(tasks: map<string, Task>, pd: real, visit: seq<string>,
                                           r: map<string, Task>, i: nat)
    requires SuccessorsIn(tasks) && ReverseTopological(tasks, visit) && EarlyTimesConsistent(tasks, pd)
    requires LateSchedule(tasks, pd, visit, r)
    requires i < |visit|
    ensures r[visit[i]].lateFinish >= tasks[visit[i]].earlyFinish
    decreases i
  {
    var x := visit[i];
    var succ := tasks[x].successors;
    ScheduleAt(tasks, pd, visit, r, i);
    EarlyFinishSum(tasks, pd, x);
    if |succ| > 0 {
      var k :| 0 <= k < |succ| && r[succ[k]].lateStart == MinLateStart(r, succ);
      var j := SuccessorIndex(tasks, visit, i, k);
      LateCoversEarly(tasks, pd, visit, r, j);
      ScheduleAt(tasks, pd, visit, r, j);
      EarlyAlongEdge(tasks, pd, x, k);
      EarlyFinishSum(tasks, pd, succ[k]);
    }
  }

  /** In a late schedule over a successors-first order with complete early times, no float is negative. */
  lemma ScheduleFloatNonNegative(tasks: map<string, Task>, pd: real, visit: seq<string>, r: map<string, Task>)
    requires SuccessorsIn(tasks) && ReverseTopological(tasks, visit) && EarlyTimesConsistent(tasks, pd)
    requires LateSchedule(tasks, pd, visit, r)
    ensures forall i :: 0 <= i < |visit| ==> r[visit[i]].totalFloat >= 0.0
  {
    forall i | 0 <= i < |visit|
      ensures r[visit[i]].totalFloat >= 0.0
    {
      LateCoversEarly(tasks, pd, visit, r, i);
      ScheduleAt(tasks, pd, visit, r, i);
      EarlyFinishSum(tasks, pd, visit[i]);
    }
  }

  /**
    In a late schedule, a task visited `i`-th whose early finish is the project
    duration leads, along successors of equal early finish, to a sink of zero float.
  */
  lemma {:induction false} CriticalFrom(tasks: map<string, Task>, pd: real, visit: seq<string>,
                                        r: map<string, Task>, i: nat)
    requires SuccessorsIn(tasks) && ReverseTopological(tasks, visit) && EarlyTimesConsistent(tasks, pd)
    requires LateSchedule(tasks, pd, visit, r)
    requires forall x :: x in tasks ==> tasks[x].duration >= 0.0
    requires i < |visit| && tasks[visit[i]].earlyFinish == pd
    ensures exists j :: 0 <= j < |visit| && r[visit[j]].isCritical
    decreases i
  {
    var x := visit[i];
    var succ := tasks[x].successors;
    ScheduleAt(tasks, pd, visit, r, i);
    EarlyFinishSum(tasks, pd, x);
    if |succ| == 0 {
      assert r[x].totalFloat == 0.0;
      assert r[visit[i]].isCritical;
    } else {
      var j := SuccessorIndex(tasks, visit, i, 0);
      EarlyAlongEdge(tasks, pd, x, 0);
      EarlyFinishSum(tasks, pd, succ[0]);
      CriticalFrom(tasks, pd, visit, r, j);
    }
  }

  /**
    With successors visited first, every task visited, nonnegative durations and
    complete early times, the backward pass leaves at least one task critical.
  */
  lemma BackwardPassCritical(tasks: map<string, Task>, pd: real, visit: seq<string>)
    requires SuccessorsIn(tasks) && ReverseTopological(tasks, visit) && EarlyTimesConsistent(tasks, pd)
    requires forall x :: x in tasks ==> x in visit
    requires forall x :: x in tasks ==> tasks[x].duration >= 0.0
    requires exists x :: x in tasks && tasks[x].earlyFinish == pd
    ensures exists x :: x in tasks && BackwardPass(tasks, pd, visit)[x].isCritical
  {
    var r := BackwardPass(tasks, pd, visit);
    BackwardPassSchedule(tasks, pd, visit);
    var x :| x in tasks && tasks[x].earlyFinish == pd;
    var i :| 0 <= i < |visit| && visit[i] == x;
    CriticalFrom(tasks, pd, visit, r, i);
  }

  /**
    Every task of `r` has textbook late times: consistent equations, the
    project duration at a sink, and the smallest late start among its
    successors otherwise.
  */
  ghost predicate TextbookLate(r: map<string, Task>, pd: real) {
    forall x :: x in r ==>
      && LateDone(r[x], pd)
      && (|r[x].successors| > 0 && (forall j :: 0 <= j < |r[x].successors| ==> r[x].successors[j] in r) ==>
            r[x].lateFinish == MinLateStart(r, r[x].successors))
  }

  /** A late schedule over a listing of every task is a textbook one. */
  lemma ScheduleIsTextbook(tasks: map<string, Task>, pd: real, visit: seq<string>, r: map<string, Task>)
    requires LateSchedule(tasks, pd, visit, r)
    requires forall x :: x in tasks ==> x in visit
    ensures TextbookLate(r, pd)
  {
    forall x | x in r
      ensures LateDone(r[x], pd)
      ensures |r[x].successors| > 0 && (forall j :: 0 <= j < |r[x].successors| ==> r[x].successors[j] in r) ==>
                r[x].lateFinish == MinLateStart(r, r[x].successors)
    {
      var i :| 0 <= i < |visit| && visit[i] == x;
    }
  }

  /**
    With successors visited first, every task visited and complete early
    times, the backward pass computes textbook late times and no negative float.
  */
  lemma BackwardPassTextbook(tasks: map<string, Task>, pd: real, visit: seq<string>)
    requires SuccessorsIn(tasks) && ReverseTopological(tasks, visit) && EarlyTimesConsistent(tasks, pd)
    requires forall x :: x in tasks ==> x in visit
    ensures TextbookLate(BackwardPass(tasks, pd, visit), pd)
    ensures forall x :: x in tasks ==> BackwardPass(tasks, pd, visit)[x].totalFloat >= 0.0
  {
    var r := BackwardPass(tasks, pd, visit);
    BackwardPassSchedule(tasks, pd, visit);
    ScheduleIsTextbook(tasks, pd, visit, r);
    ScheduleFloatNonNegative(tasks, pd, visit, r);
    forall x | x in tasks
      ensures r[x].totalFloat >= 0.0
    {
      var i :| 0 <= i < |visit| && visit[i] == x;
    }
  }
}

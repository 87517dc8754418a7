/**
  A project task: a static three-point estimate (optimistic, most likely,
  pessimistic) plus the schedule fields that the network recomputes on every
  simulation iteration.
*/
module TaskModel {

  datatype Task = Task(
    id: string,
    name: string,
    category: string,
    resources: seq<string>,
    predecessors: seq<string>,
    optimistic: real,
    mostLikely: real,
    pessimistic: real,
    // per-iteration schedule fields
    duration: real,
    earlyStart: real,
    earlyFinish: real,
    lateStart: real,
    lateFinish: real,
    totalFloat: real,
    isCritical: bool,
    // derived back-references, filled in by the network
    successors: seq<string>)

  /** A freshly constructed task: every schedule field zero, no successors yet. */
  function NewTask(id: string, name: string, predecessors: seq<string>,
                   optimistic: real, mostLikely: real, pessimistic: real,
                   category: string, resources: seq<string>): (t: Task)
    ensures Unscheduled(t) && t.successors == []
    ensures t.id == id && t.predecessors == predecessors && t.category == category
    ensures t.optimistic == optimistic && t.mostLikely == mostLikely && t.pessimistic == pessimistic
  {
    Task(id, name, category, resources, predecessors, optimistic, mostLikely, pessimistic,
         0.0, 0.0, 0.0, 0.0, 0.0, 0.0, false, [])
  }

  /** PERT mean (O + 4M + P) / 6. */
  function Mean(t: Task): real {
    (t.optimistic + 4.0 * t.mostLikely + t.pessimistic) / 6.0
  }

  /** PERT standard deviation (P - O) / 6. */
  function StdDev(t: Task): real {
    (t.pessimistic - t.optimistic) / 6.0
  }

  /** All seven per-iteration fields hold their reset values. */
  predicate Unscheduled(t: Task) {
    && t.duration == 0.0 && t.earlyStart == 0.0 && t.earlyFinish == 0.0
    && t.lateStart == 0.0 && t.lateFinish == 0.0 && t.totalFloat == 0.0
    && !t.isCritical
  }

  /** The parts of a task that no schedule computation may change. */
  predicate SameEstimate(a: Task, b: Task) {
    && a.id == b.id && a.name == b.name && a.category == b.category
    && a.resources == b.resources && a.predecessors == b.predecessors
    && a.optimistic == b.optimistic && a.mostLikely == b.mostLikely
    && a.pessimistic == b.pessimistic && a.successors == b.successors
  }

  /** The estimate is degenerate when the pessimistic bound does not exceed the optimistic one. */
  predicate Degenerate(t: Task) {
    t.pessimistic <= t.optimistic
  }

  /** Clears the per-iteration fields and nothing else. */
  function Reset(t: Task): (r: Task)
    ensures Unscheduled(r)
    ensures SameEstimate(r, t)
  {
    t.(duration := 0.0, earlyStart := 0.0, earlyFinish := 0.0, lateStart := 0.0,
       lateFinish := 0.0, totalFloat := 0.0, isCritical := false)
  }

  /** What one sampling call returns, and the task as it is left afterwards. */
  datatype Sample = Sample(value: real, task: Task)

  /**
    Samples a duration from a Beta(4, 4) variate `b` (a draw in [0, 1]) rescaled
    into [optimistic, pessimistic]. In the degenerate case the most likely value
    is returned but the task's `duration` field is left as it was.
  */
  function GenerateDuration(t: Task, b: real): (s: Sample)
    ensures Degenerate(t) ==> s.value == t.mostLikely && s.task == t
    ensures !Degenerate(t) ==> s.task == t.(duration := s.value)
    ensures !Degenerate(t) && 0.0 <= b <= 1.0 ==>
              t.optimistic <= s.value <= t.pessimistic
    ensures !Degenerate(t) ==> (s.value - t.optimistic) == b * (t.pessimistic - t.optimistic)
  {
    if t.pessimistic <= t.optimistic then Sample(t.mostLikely, t)
    else
      var scale := t.pessimistic - t.optimistic;
      var location := t.optimistic;
      var duration := b * scale + location;
      Sample(duration, t.(duration := duration))
  }

  /**
    Sampling as evidently intended: the degenerate case also stores the value it
    returns, so the schedule sees the most likely duration.
  */
  function GenerateDurationCorrected(t: Task, b: real): (s: Sample)
    ensures s.task == t.(duration := s.value)
    ensures Degenerate(t) ==> s.value == t.mostLikely
    ensures !Degenerate(t) ==> s == GenerateDuration(t, b)
  {
    if t.pessimistic <= t.optimistic then Sample(t.mostLikely, t.(duration := t.mostLikely))
    else GenerateDuration(t, b)
  }

  /**
    One task's share of a sampling round: reset, then sample. A degenerate
    task keeps the reset duration 0, because the sampler returns its most
    likely value without storing it.
  */
  function ResetAndSample(t: Task, b: real): (r: Task)
    ensures SameEstimate(r, t)
    ensures r.earlyStart == 0.0 && r.earlyFinish == 0.0 && r.lateStart == 0.0
    ensures r.lateFinish == 0.0 && r.totalFloat == 0.0 && !r.isCritical
    ensures Degenerate(t) ==> r.duration == 0.0
    ensures !Degenerate(t) ==> r.duration - t.optimistic == b * (t.pessimistic - t.optimistic)
    ensures !Degenerate(t) && 0.0 <= b <= 1.0 ==> t.optimistic <= r.duration <= t.pessimistic
  {
    GenerateDuration(Reset(t), b).task
  }

  /**
    The degenerate bypass: sampling reports the most likely value, yet a reset
    task keeps the duration 0.0. For O = M = P = 5 the call returns 5 and the
    schedule sees 0.
  */
  lemma DegenerateSampleStoresZero(t: Task, b: real)
    requires Degenerate(t)
    ensures GenerateDuration(Reset(t), b).value == t.mostLikely
    ensures GenerateDuration(Reset(t), b).task.duration == 0.0
    ensures t.mostLikely != 0.0 ==>
              GenerateDuration(Reset(t), b).value != GenerateDuration(Reset(t), b).task.duration
  {
  }

  /** With the corrected sampler the stored and the returned duration always agree. */
  lemma CorrectedSampleStoresValue(t: Task, b: real)
    ensures GenerateDurationCorrected(Reset(t), b).task.duration
         == GenerateDurationCorrected(Reset(t), b).value
    ensures Degenerate(t) ==> GenerateDurationCorrected(Reset(t), b).task.duration == t.mostLikely
  {
  }
}

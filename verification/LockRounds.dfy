/** The stepping loop of `main` in sw/board/lockcheck.c: sweeps over the tasks, one step each, bring
    every task to its system call. */
module LockRounds {
  import Bits
  import opened LockSpec

  /** The steps a task still has to make, not counting tests and failed attempts at the lock. */
  function Need(task: Task): int {
    var rounds := (LOOPS - task.loops) * 14;
    match task.pc
    case Start => LOOPS * 14 + 5
    case Test => rounds + 4
    case Grab => rounds + 4
    case Claim => rounds + 3
    case CheckOwner => rounds + 2 - 2 * task.k
    case CheckLock => rounds + 1 - 2 * task.k
    case Count => rounds - 8
    case Release => rounds + 5
    case FinalGrab => 4
    case Report => 3
    case FinalRelease => 2
    case Verdict => 1
    case Trapped => 0
  }

  function Total(tasks: seq<Task>): int {
    if tasks == [] then 0 else Total(tasks[..|tasks| - 1]) + Need(tasks[|tasks| - 1])
  }

  /** The tasks that are about to test their loop counter. */
  function Tests(tasks: seq<Task>): nat {
    if tasks == [] then 0 else Tests(tasks[..|tasks| - 1]) + Bits.One(tasks[|tasks| - 1].pc == Test)
  }

  /** The tasks from t on that have not reached their system call. */
  function Running(tasks: seq<Task>, t: nat): nat
    requires t <= |tasks|
    decreases |tasks| - t
  {
    if t == |tasks| then 0 else Bits.One(tasks[t].pc != Trapped) + Running(tasks, t + 1)
  }

  lemma {:induction false} Replace(tasks: seq<Task>, t: nat, task: Task)
    requires t < |tasks|
    ensures var r := tasks[t := task];
      Total(r) == Total(tasks) - Need(tasks[t]) + Need(task) &&
      Tests(r) == Tests(tasks) - Bits.One(tasks[t].pc == Test) + Bits.One(task.pc == Test)
    decreases |tasks|
  {
    hide Need;
    var r, n := tasks[t := task], |tasks| - 1;
    if t == n {
      assert r[..n] == tasks[..n];
    } else {
      assert r[..n] == tasks[..n][t := task];
      Replace(tasks[..n], t, task);
    }
  }

  lemma {:induction false} RunningLater(tasks: seq<Task>, r: seq<Task>, t: nat)
    requires |r| == |tasks| && t <= |tasks| && forall u: nat | t <= u < |tasks| :: r[u] == tasks[u]
    ensures Running(r, t) == Running(tasks, t)
    decreases |tasks| - t
  {
    if t < |tasks| { RunningLater(tasks, r, t + 1); }
  }

  lemma {:induction false} TotalBound(s: State, n: nat)
    requires n <= |s.tasks| && forall t: nat | t < |s.tasks| :: TaskOk(s, t)
    ensures Total(s.tasks[..n]) >= 0
  {
    if n > 0 {
      TotalBound(s, n - 1);
      assert s.tasks[..n][..n - 1] == s.tasks[..n - 1];
      assert TaskOk(s, n - 1);
    }
  }

  /** A step never adds to what is needed; it leaves it as it is only at a test, at a lock that is
      taken, or past the end. */
  lemma StepNeeds(s: State, t: nat)
    requires Inv(s) && t < |s.tasks|
    ensures var before, after := s.tasks[t], Step(s, t).tasks[t];
      Step(s, t).tasks == s.tasks[t := after] && Need(after) <= Need(before) &&
      (Need(after) == Need(before) ==>
        Step(s, t).atomic == s.atomic && !Holds(before) && !Holds(after) &&
        (before.pc == Test || before.pc == Trapped || s.atomic == 1) &&
        (before.pc == Test ==> after.pc != Test) && (before.pc != Test && s.atomic == 0 ==> after == before))
  {
    assert TaskOk(s, t);
  }

  /** One sweep of `main` from task t on; tasks that have trapped are not stepped. */
  function Sweep(s: State, t: nat): (r: State)
    requires t <= |s.tasks|
    ensures |r.tasks| == |s.tasks|
    decreases |s.tasks| - t
  {
    if t == |s.tasks| then s
    else Sweep(if s.tasks[t].pc == Trapped then s else Step(s, t), t + 1)
  }

  /** If a sweep brings no task on, then the lock is not held by a task in it, and if the lock is
      free every running task in it has moved from its test to an attempt. */
  lemma {:induction false} SweepStalls(s: State, t: nat)
    requires Inv(s) && t <= |s.tasks|
    ensures var r := Sweep(s, t);
      Inv(r) && Total(r.tasks) <= Total(s.tasks) &&
      (Total(r.tasks) == Total(s.tasks) ==>
        (forall h: nat | t <= h < |s.tasks| :: !Holds(s.tasks[h])) &&
        (s.atomic == 0 ==> Tests(r.tasks) == Tests(s.tasks) - Running(s.tasks, t)))
    decreases |s.tasks| - t
  {
    hide Inv, TaskOk, Step, Need, Holds, Total, Tests, Exclusive;
    if t < |s.tasks| {
      var next := if s.tasks[t].pc == Trapped then s else Step(s, t);
      StepInv(s, t);
      SweepStalls(next, t + 1);
      StepNeeds(s, t);
      Replace(s.tasks, t, Step(s, t).tasks[t]);
      RunningLater(s.tasks, next.tasks, t + 1);
      TrappedStays(s, t);
      SweepFrame(s, t);
    }
  }

  lemma TrappedStays(s: State, t: nat)
    requires t < |s.tasks|
    ensures s.tasks[t].pc == Trapped ==> Step(s, t) == s && !Holds(s.tasks[t])
  {}

  lemma SweepFrame(s: State, t: nat)
    requires t < |s.tasks|
    ensures forall u: nat | t < u < |s.tasks| :: Step(s, t).tasks[u] == s.tasks[u]
  {}

  /** Every sweep that finds a running task makes progress: less is needed, or fewer tests are due. */
  lemma SweepProgress(s: State)
    requires Inv(s) && Running(s.tasks, 0) > 0
    ensures var r := Sweep(s, 0);
      Inv(r) && 0 <= Total(r.tasks) <= Total(s.tasks) &&
      (Total(r.tasks) == Total(s.tasks) ==> Tests(r.tasks) < Tests(s.tasks))
  {
    SweepStalls(s, 0);
    var r := Sweep(s, 0);
    TotalBound(r, |r.tasks|);
    assert r.tasks[..|r.tasks|] == r.tasks;
  }
}

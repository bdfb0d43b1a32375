/** The test-and-set lock of sw/board/lockcheck.c: any number of tasks, one statement at a time, in
    any order. */
module LockSpec {

  /** Where a task is in `user_task`: before the statement named. */
  datatype Pc =
    | Start | Test | Grab | Claim | CheckOwner | CheckLock | Count | Release
    | FinalGrab | Report | FinalRelease | Verdict | Trapped

  /** `k` counts the checks done while holding the lock. */
  datatype Task = Task(pc: Pc, k: nat, loops: int, fail: bool)

  datatype State = State(atomic: nat, shared: nat, tasks: seq<Task>)

  const LOOPS := 1024

  function With(s: State, t: nat, task: Task): State
    requires t < |s.tasks|
  {
    s.(tasks := s.tasks[t := task])
  }

  /** Task t executes its next statement. */
  function Step(s: State, t: nat): (r: State)
    requires t < |s.tasks|
    ensures |r.tasks| == |s.tasks| && forall u: nat | u < |s.tasks| && u != t :: r.tasks[u] == s.tasks[u]
  {
    var me := s.tasks[t];
    match me.pc
    case Start => With(s, t, Task(Test, me.k, 0, false))
    case Test => With(s, t, me.(pc := if me.loops < LOOPS then Grab else FinalGrab))
    case Grab =>
      if s.atomic == 0 then With(s.(atomic := 1), t, me.(pc := Claim)) else With(s, t, me.(pc := Test))
    case Claim => With(s.(shared := t), t, me.(pc := CheckOwner, k := 0))
    case CheckOwner => With(s, t, me.(pc := CheckLock, fail := me.fail || s.shared != t))
    case CheckLock =>
      With(s, t, me.(pc := if me.k + 1 < 5 then CheckOwner else Count, k := me.k + 1, fail := me.fail || s.atomic != 1))
    case Count => With(s, t, me.(pc := Release, loops := me.loops + 1))
    case Release => With(s.(atomic := 0), t, me.(pc := Test))
    case FinalGrab => if s.atomic == 0 then With(s.(atomic := 1), t, me.(pc := Report)) else s
    case Report => With(s, t, me.(pc := FinalRelease))
    case FinalRelease => With(s.(atomic := 0), t, me.(pc := Verdict))
    case Verdict => With(s, t, me.(pc := Trapped, loops := if me.fail then -1 else me.loops))
    case Trapped => s
  }

  function Run(s: State, schedule: seq<nat>): State
    requires forall i | 0 <= i < |schedule| :: schedule[i] < |s.tasks|
    decreases |schedule|
  {
    if schedule == [] then s else Run(Step(s, schedule[0]), schedule[1..])
  }

  /** Between a successful test-and-set and the release. */
  predicate Holds(task: Task) {
    task.pc == Claim || task.pc == CheckOwner || task.pc == CheckLock || task.pc == Count || task.pc == Release ||
    task.pc == Report || task.pc == FinalRelease
  }

  /** Past the store to the shared resource, with the lock held. */
  predicate Owns(task: Task) {
    task.pc == CheckOwner || task.pc == CheckLock || task.pc == Count || task.pc == Release
  }

  /** What every task keeps. */
  predicate TaskOk(s: State, t: nat)
    requires t < |s.tasks|
  {
    var me := s.tasks[t];
    !me.fail && (Owns(me) ==> s.shared == t) &&
    ((me.pc == CheckOwner || me.pc == CheckLock) ==> me.k < 5) && (me.pc == Count ==> me.k == 5) &&
    match me.pc
    case Start => true
    case Test => 0 <= me.loops <= LOOPS
    case Grab => 0 <= me.loops < LOOPS
    case Claim => 0 <= me.loops < LOOPS
    case CheckOwner => 0 <= me.loops < LOOPS
    case CheckLock => 0 <= me.loops < LOOPS
    case Count => 0 <= me.loops < LOOPS
    case Release => 1 <= me.loops <= LOOPS
    case _ => me.loops == LOOPS
  }

  /** At most one task holds the lock, and `atomic` says whether one does. */
  ghost predicate Exclusive(s: State) {
    (s.atomic == 0 || s.atomic == 1) &&
    (forall t: nat, u: nat | t < |s.tasks| && u < |s.tasks| && Holds(s.tasks[t]) && Holds(s.tasks[u]) :: t == u) &&
    (s.atomic == 1 <==> exists t: nat | t < |s.tasks| :: Holds(s.tasks[t]))
  }

  ghost predicate Inv(s: State) { Exclusive(s) && forall t: nat | t < |s.tasks| :: TaskOk(s, t) }

  /** The tasks as `main` sets them up. */
  ghost predicate Initial(s: State) {
    s.atomic == 0 && forall t: nat | t < |s.tasks| :: s.tasks[t].pc == Start && !s.tasks[t].fail
  }

  lemma InitialInv(s: State)
    requires Initial(s)
    ensures Inv(s)
  {}

  lemma StepExclusive(s: State, t: nat)
    requires Inv(s) && t < |s.tasks|
    ensures Exclusive(Step(s, t))
  {
    var r := Step(s, t);
    if Holds(s.tasks[t]) { assert s.atomic == 1; }
    if Holds(r.tasks[t]) {
      assert forall u: nat | u < |s.tasks| && u != t :: !Holds(r.tasks[u]);
    }
    if r.atomic == 1 && s.atomic == 1 {
      var h: nat :| h < |s.tasks| && Holds(s.tasks[h]);
      assert Holds(r.tasks[h]);
    }
  }

  lemma StepTasks(s: State, t: nat, u: nat)
    requires Inv(s) && t < |s.tasks| && u < |s.tasks|
    ensures TaskOk(Step(s, t), u)
  {
    assert TaskOk(s, t) && TaskOk(s, u);
    if Holds(s.tasks[t]) { assert s.atomic == 1; }
    if u != t && Owns(s.tasks[u]) { assert Holds(s.tasks[u]); }
  }

  lemma StepInv(s: State, t: nat)
    requires Inv(s) && t < |s.tasks|
    ensures Inv(Step(s, t))
  {
    hide Step, Exclusive, TaskOk;
    StepExclusive(s, t);
    forall u: nat | u < |s.tasks| ensures TaskOk(Step(s, t), u) { StepTasks(s, t, u); }
  }

  lemma {:induction false} RunInv(s: State, schedule: seq<nat>)
    requires Inv(s) && forall i | 0 <= i < |schedule| :: schedule[i] < |s.tasks|
    ensures Inv(Run(s, schedule)) && |Run(s, schedule).tasks| == |s.tasks|
    decreases |schedule|
  {
    if schedule != [] {
      StepInv(s, schedule[0]);
      RunInv(Step(s, schedule[0]), schedule[1..]);
    }
  }

  /** Over every schedule: one holder at a time and `atomic` set exactly while there is one, no task
      ever sees a failure, a task that has finished checking has checked five times, and a task that
      reaches the system call has counted to 1024. */
  lemma LockWorks(s: State, schedule: seq<nat>)
    requires Initial(s) && forall i | 0 <= i < |schedule| :: schedule[i] < |s.tasks|
    ensures var r := Run(s, schedule);
      |r.tasks| == |s.tasks| &&
      (forall t: nat, u: nat | t < u < |r.tasks| :: !(Holds(r.tasks[t]) && Holds(r.tasks[u]))) &&
      (r.atomic == 1 <==> exists t: nat | t < |r.tasks| :: Holds(r.tasks[t])) &&
      forall t: nat | t < |r.tasks| ::
        !r.tasks[t].fail && (r.tasks[t].pc == Count ==> r.tasks[t].k == 5) &&
        (r.tasks[t].pc == Trapped ==> r.tasks[t].loops == 1024)
  {
    InitialInv(s);
    RunInv(s, schedule);
    var r := Run(s, schedule);
    forall t: nat | t < |r.tasks|
      ensures !r.tasks[t].fail && (r.tasks[t].pc == Count ==> r.tasks[t].k == 5)
      ensures r.tasks[t].pc == Trapped ==> r.tasks[t].loops == 1024
    {
      assert TaskOk(r, t);
    }
  }

  // ---- the checks are not idle: from any state, a failure seen is a failure reported ----

  /** Task t has seen a failure: it is past its start, and its report is out if it has trapped. */
  predicate Failing(s: State, t: nat)
    requires t < |s.tasks|
  {
    s.tasks[t].fail && s.tasks[t].pc != Start && (s.tasks[t].pc == Trapped ==> s.tasks[t].loops == -1)
  }

  lemma FailingStep(s: State, t: nat, u: nat)
    requires t < |s.tasks| && u < |s.tasks| && Failing(s, t)
    ensures Failing(Step(s, u), t)
  {}

  lemma {:induction false} FailingRun(s: State, schedule: seq<nat>, t: nat)
    requires t < |s.tasks| && Failing(s, t) && forall i | 0 <= i < |schedule| :: schedule[i] < |s.tasks|
    ensures |Run(s, schedule).tasks| == |s.tasks| && Failing(Run(s, schedule), t)
    decreases |schedule|
  {
    hide Step, Failing;
    if schedule != [] {
      FailingStep(s, t, schedule[0]);
      FailingRun(Step(s, schedule[0]), schedule[1..], t);
    }
  }

  /** A task that finds another owner, or the lock not taken, while it holds the lock ends with -1
      instead of its count, over every schedule from there and from every state whatever. */
  lemma FailureReported(s: State, schedule: seq<nat>, t: nat)
    requires t < |s.tasks| && schedule != [] && schedule[0] == t
    requires forall i | 0 <= i < |schedule| :: schedule[i] < |s.tasks|
    requires (s.tasks[t].pc == CheckOwner && s.shared != t) || (s.tasks[t].pc == CheckLock && s.atomic != 1)
    ensures var r := Run(s, schedule);
      |r.tasks| == |s.tasks| && (r.tasks[t].pc == Trapped ==> r.tasks[t].loops == -1)
  {
    FailingRun(Step(s, t), schedule[1..], t);
  }
}

/** The test program of sw/board/lockcheck.c: tasks over a shared lock, stepped in turn by `main`
    until all have reached their system call. */
module Lockcheck {
  import opened LockSpec
  import opened LockRounds

  class Board {
    var atomic: nat
    var shared: nat
    const tasks: array<Task>

    /** The tasks' loop counters start out as whatever is there. */
    constructor (ntasks: nat, stale: int)
      ensures Initial(View()) && fresh(tasks) && tasks.Length == ntasks
    {
      atomic, shared := 0, 0;
      tasks := new Task[ntasks](_ => Task(Start, 0, stale, false));
    }

    ghost function View(): State
      reads this, tasks
    {
      State(atomic, shared, tasks[..])
    }

    /** `__atomic_test_and_set` */
    method TestAndSet() returns (was: bool)
      modifies this`atomic
      ensures was == (old(atomic) != 0) && atomic == if was then old(atomic) else 1
    {
      was := atomic != 0;
      if !was {
        atomic := 1;
      }
    }

    /** One statement of `user_task`. */
    method StepTask(t: nat)
      requires t < tasks.Length
      modifies this, tasks
      ensures View() == Step(old(View()), t)
    {
      var me := tasks[t];
      match me.pc
      case Start =>
        tasks[t] := Task(Test, me.k, 0, false);
      case Test =>
        tasks[t] := me.(pc := if me.loops < 1024 then Grab else FinalGrab);
      case Grab =>
        var was := TestAndSet();
        tasks[t] := me.(pc := if was then Test else Claim);
      case Claim =>
        shared := t;
        tasks[t] := me.(pc := CheckOwner, k := 0);
      case CheckOwner =>
        tasks[t] := me.(pc := CheckLock, fail := if shared != t then true else me.fail);
      case CheckLock =>
        var fail := if atomic != 1 then true else me.fail;
        tasks[t] := me.(pc := if me.k + 1 < 5 then CheckOwner else Count, k := me.k + 1, fail := fail);
      case Count =>
        tasks[t] := me.(pc := Release, loops := me.loops + 1);
      case Release =>
        atomic := 0;
        tasks[t] := me.(pc := Test);
      case FinalGrab =>
        var was := TestAndSet();
        tasks[t] := me.(pc := if was then FinalGrab else Report);
      case Report =>
        tasks[t] := me.(pc := FinalRelease);
      case FinalRelease =>
        atomic := 0;
        tasks[t] := me.(pc := Verdict);
      case Verdict =>
        tasks[t] := me.(pc := Trapped, loops := if me.fail then -1 else me.loops);
      case Trapped =>
    }

    /** One sweep over the tasks; returns how many had already trapped. */
    method SweepTasks() returns (completed: nat)
      modifies this, tasks
      ensures View() == Sweep(old(View()), 0)
      ensures completed + Running(old(tasks[..]), 0) == tasks.Length
    {
      hide Step;
      completed := 0;
      var t := 0;
      while t < tasks.Length
        invariant 0 <= t <= tasks.Length && Sweep(View(), t) == Sweep(old(View()), 0)
        invariant completed + Running(old(tasks[..]), 0) == t + Running(old(tasks[..]), t)
        invariant forall u: nat | t <= u < tasks.Length :: tasks[u] == old(tasks[u])
      {
        SweepFrame(View(), t);
        ghost var before := View();
        if tasks[t].pc == Trapped {
          completed := completed + 1;
        } else {
          StepTask(t);
        }
        assert forall u: nat | t < u < tasks.Length :: tasks[u] == View().tasks[u] == before.tasks[u];
        t := t + 1;
      }
    }

    /** The loop of `main` and its check of the results: it ends, and it reports success. */
    method RunTasks() returns (success: bool)
      requires Inv(View())
      modifies this, tasks
      ensures Inv(View()) && success && atomic == 0
      ensures forall t: nat | t < tasks.Length :: tasks[t].pc == Trapped && tasks[t].loops == 1024
    {
      hide Step, Sweep, Inv, Running, Total, Tests;
      success := true;
      ghost var before := View();
      Measure(before);
      var completed := SweepTasks();
      SweepEnds(before);
      while completed < tasks.Length
        invariant Inv(View()) && Total(tasks[..]) >= 0 && completed <= tasks.Length
        invariant completed == tasks.Length ==> Running(tasks[..], 0) == 0
        decreases Total(tasks[..]), Tests(tasks[..]), tasks.Length - completed
      {
        before := View();
        completed := SweepTasks();
        SweepEnds(before);
      }
      AllTrapped(View());
      success := Judge(success);
    }

    /** The check of the counters: success unless a task left -1. */
    method Judge(success0: bool) returns (success: bool)
      ensures success <==> success0 && forall t: nat | t < tasks.Length :: tasks[t].loops != -1
    {
      success := success0;
      var t := 0;
      if success {
        while t < tasks.Length
          invariant 0 <= t <= tasks.Length
          invariant success <==> success0 && forall u: nat | u < t :: tasks[u].loops != -1
        {
          if tasks[t].loops == -1 {
            success := false;
          }
          t := t + 1;
        }
      }
    }
  }

  lemma Measure(s: State)
    requires Inv(s)
    ensures Total(s.tasks) >= 0
  {
    TotalBound(s, |s.tasks|);
    assert s.tasks[..|s.tasks|] == s.tasks;
  }

  /** A sweep makes progress, or every task had trapped and nothing changes. */
  lemma SweepEnds(s: State)
    requires Inv(s)
    ensures var r := Sweep(s, 0);
      Inv(r) && Total(r.tasks) >= 0 && Total(r.tasks) <= Total(s.tasks) &&
      (Running(s.tasks, 0) > 0 && Total(r.tasks) == Total(s.tasks) ==> Tests(r.tasks) < Tests(s.tasks)) &&
      (Running(s.tasks, 0) == 0 ==> r == s)
  {
    hide Inv;
    Measure(s);
    if Running(s.tasks, 0) > 0 {
      SweepProgress(s);
    } else {
      SweepOver(s, 0);
    }
  }

  /** Once every task has trapped, sweeps do nothing. */
  lemma {:induction false} SweepOver(s: State, t: nat)
    requires t <= |s.tasks| && Running(s.tasks, t) == 0
    ensures Sweep(s, t) == s
    decreases |s.tasks| - t
  {
    if t < |s.tasks| { SweepOver(s, t + 1); }
  }

  lemma {:induction false} NoneRunning(tasks: seq<Task>, t: nat)
    requires t <= |tasks| && Running(tasks, t) == 0
    ensures forall u: nat | t <= u < |tasks| :: tasks[u].pc == Trapped
    decreases |tasks| - t
  {
    if t < |tasks| { NoneRunning(tasks, t + 1); }
  }

  lemma AllTrapped(s: State)
    requires Inv(s) && Running(s.tasks, 0) == 0
    ensures s.atomic == 0
    ensures forall t: nat | t < |s.tasks| :: s.tasks[t].pc == Trapped && s.tasks[t].loops == LOOPS
  {
    NoneRunning(s.tasks, 0);
    forall t: nat | t < |s.tasks| ensures s.tasks[t].loops == LOOPS { assert TaskOk(s, t); }
  }
}

/** The scheduler as it runs, over the linked run list: each method computes its
    counterpart on abstract states. */
module Schedulers {
  import opened Wrappers
  import opened LinkedLists
  import opened Scheduling
  import opened SchedulingRuns

  class Scheduler {
    const schedTasks: List<nat>
    var tasks: map<nat, Task>
    var dead: set<nat>
    var current: Option<nat>
    var enabled: bool
    ghost var all: seq<nat>
    ghost var nextTid: nat
    ghost var nextPid: nat

    ghost function State(): Sys
      reads this, schedTasks
    {
      Sys(tasks, dead, schedTasks.Contents(), current, all, enabled, nextTid, nextPid)
    }

    ghost predicate Valid()
      reads this, schedTasks, schedTasks.repr
    {
      schedTasks.Valid() && Inv(State())
    }

    /** sched_init. */
    constructor ()
      ensures Valid() && State() == Init() && fresh(schedTasks) && fresh(schedTasks.repr)
    {
      schedTasks := new List();
      tasks := map[CLEANUP := KERNEL_TASK, IDLE := KERNEL_TASK];
      dead, current, enabled := {}, None, false;
      all, nextTid, nextPid := [CLEANUP, IDLE], 3, 1;
      new;
      InitInv();
      var _ := schedTasks.Add(CLEANUP);
      var _ := schedTasks.Add(IDLE);
      assert State() == Init();
    }

    /** list_it_remove(&sched_tasks, list_find(&sched_tasks, current_task)). */
    method RemoveCurrent()
      requires schedTasks.Valid() && current.Some? && current.value in schedTasks.Contents()
      modifies schedTasks, schedTasks.repr
      ensures schedTasks.Valid()
      ensures State() == old(State()).(queue := RemoveAt(old(schedTasks.Contents()),
                                                         IndexOf(old(schedTasks.Contents()), current.value)))
      ensures schedTasks.repr == old(schedTasks.repr)
    {
      ghost var k := IndexOf(schedTasks.Contents(), current.value);
      var it := schedTasks.Find(current.value);
      schedTasks.ItRemove(it, k);
    }

    /** task_schedulable. */
    method TaskSchedulable(t: nat) returns (r: bool)
      requires schedTasks.Valid() && t in tasks
      requires Doomed(State(), t) ==> current.Some? && current.value in schedTasks.Contents()
      modifies this`tasks, schedTasks, schedTasks.repr
      ensures schedTasks.Valid()
      ensures Schedulable(old(State()), t) == if r then Dispatch(t, State()) else Again(State())
      ensures schedTasks.repr == old(schedTasks.repr)
    {
      var process := tasks[t].process;
      if process.Some? && process.value in dead {
        tasks := tasks[t := tasks[t].(state := Killed)];
      }
      if tasks[t].state == Killed {
        RemoveCurrent();
        assert tasks == old(tasks)[t := old(tasks)[t].(state := Killed)];
      }
      if tasks[t].irqWait {
        return false;
      }
      return tasks[t].state == Running;
    }

    /** One turn of the loop of get_next_task. */
    method ExamineFirst() returns (next: nat, r: bool)
      requires schedTasks.Valid() && !LoopTurn(State()).Panic?
      modifies this`tasks, schedTasks, schedTasks.repr
      ensures schedTasks.Valid()
      ensures LoopTurn(old(State())) == if r then Dispatch(next, State()) else Again(State())
      ensures schedTasks.repr == old(schedTasks.repr)
    {
      var item := schedTasks.GetIndex(0);
      assert schedTasks.Contents()[0] == item.payload;
      next := item.payload;
      schedTasks.RotateFront();
      r := TaskSchedulable(next);
    }

    /** get_next_task: the loop ends because the idle task is in the list. */
    method GetNextTask() returns (next: nat)
      requires Valid()
      modifies this`tasks, schedTasks, schedTasks.repr
      ensures schedTasks.Valid()
      ensures Loop(old(State()), |old(State()).queue|) == Dispatch(next, State())
      ensures schedTasks.repr == old(schedTasks.repr)
    {
      ghost var j := SomeReady(State());
      next := FindReady(Loop(State(), |State().queue|), j, |State().queue|);
    }

    /** The loop of get_next_task, j turns before its end. */
    method FindReady(ghost goal: Turn, ghost j0: nat, ghost n0: nat) returns (next: nat)
      requires schedTasks.Valid() && Waiting(State(), j0, n0, goal)
      modifies this`tasks, schedTasks, schedTasks.repr
      ensures schedTasks.Valid() && goal == Dispatch(next, State())
      ensures schedTasks.repr == old(schedTasks.repr)
    {
      ghost var j, n := j0, n0;
      next := 0;
      var found := false;
      while !found
        invariant schedTasks.Valid()
        invariant schedTasks.repr == old(schedTasks.repr)
        invariant if found then goal == Dispatch(next, State()) else Waiting(State(), j, n, goal)
        decreases !found, j
      {
        next, found := NextTurn(goal, j, n);
        if !found {
          j, n := j - 1, n - 1;
        }
      }
    }

    method NextTurn(ghost goal: Turn, ghost j: nat, ghost n: nat) returns (next: nat, found: bool)
      requires schedTasks.Valid() && Waiting(State(), j, n, goal)
      modifies this`tasks, schedTasks, schedTasks.repr
      ensures schedTasks.Valid() && schedTasks.repr == old(schedTasks.repr)
      ensures if found then goal == Dispatch(next, State()) else j > 0 && Waiting(State(), j - 1, n - 1, goal)
    {
      WaitingTurn(State(), j, n, goal);
      next, found := ExamineFirst();
    }

    /** schedule. */
    method Schedule()
      requires Valid()
      modifies this, schedTasks, schedTasks.repr
      ensures Valid() && Scheduling.Schedule(old(State())) == Some(State())
    {
      if !enabled {
        return;
      }
      ScheduleStep(State());
      var next := GetNextTask();
      SwitchTo(next);
    }

    /** The end of schedule. */
    method SwitchTo(next: nat)
      requires schedTasks.Valid() && Switch(State(), next).Some?
      modifies this`current, schedTasks, schedTasks.repr
      ensures schedTasks.Valid() && Switch(old(State()), next) == Some(State())
    {
      if current != Some(next) {
        if current.Some? && current.value in tasks && tasks[current.value].state == Killed {
          RemoveCurrent();
        }
        current := Some(next);
      }
    }

    /** sched_insert. */
    method Insert(t: nat)
      requires Valid() && Enabled(State(), Op.Insert(t))
      modifies this, schedTasks, schedTasks.repr
      ensures Valid() && Apply(old(State()), Op.Insert(t)) == Some(State())
    {
      InsertInv(State(), t);
      var _ := schedTasks.Add(t);
    }

    /** sys_exit, its two writes taken as one step: the process is dead with the running task,
        and none of its threads, however many there are, can run any more; no other process
        and no other task changes.  For a task that may exit all stays in order. */
    method SysExit()
      requires current.Some? && current.value in tasks && tasks[current.value].process.Some?
      modifies this`dead, this`tasks
      ensures dead == old(dead) + {old(tasks)[current.value].process.value} && tasks.Keys == old(tasks.Keys)
      ensures forall t | t in tasks ::
        tasks[t] == if current == Some(t) then Task(Killed, old(tasks)[t].irqWait, old(tasks)[t].process) else old(tasks)[t]
      ensures forall t | t in tasks && tasks[t].process == tasks[current.value].process :: !Ready(State(), t)
      ensures old(Valid() && Enabled(State(), Exit)) ==> Valid() && Apply(old(State()), Exit) == Some(State())
    {
      ghost var s := State();
      if Valid() && Enabled(s, Exit) {
        KillInv(s, Exit);
      }
      dead := dead + {tasks[current.value].process.value};
      TaskKill();
      assert State() == KillCurrent(MarkProcess(s));
    }

    /** task_kill, up to its yield: the running task is killed and otherwise as it was, no
        other task changes, and a kernel task that may exit leaves all in order. */
    method TaskKill()
      requires current.Some? && current.value in tasks
      modifies this`tasks
      ensures State() == KillCurrent(old(State())) && tasks.Keys == old(tasks.Keys)
      ensures forall t | t in tasks ::
        tasks[t] == if current == Some(t) then Task(Killed, old(tasks)[t].irqWait, old(tasks)[t].process) else old(tasks)[t]
      ensures old(Valid() && Enabled(State(), Kill)) ==> Valid() && Apply(old(State()), Kill) == Some(State())
    {
      if Valid() && Enabled(State(), Kill) {
        KillInv(State(), Kill);
      }
      tasks := tasks[current.value := tasks[current.value].(state := Killed)];
    }
  }

  /** The first task that can run is j places away, nothing in front is killed, and the
      loop has yet to reach its goal. */
  ghost predicate Waiting(s: Sys, j: nat, n: nat, goal: Turn) {
    Known(s) && FirstReady(s, j) && NoneDoomed(s, j) && j <= n && Loop(s, n) == goal
  }

  lemma WaitingTurn(s: Sys, j: nat, n: nat, goal: Turn)
    requires Waiting(s, j, n, goal)
    ensures !LoopTurn(s).Panic?
    ensures j == 0 ==> LoopTurn(s).Dispatch? && LoopTurn(s) == goal
    ensures j > 0 ==> LoopTurn(s).Again? && Waiting(LoopTurn(s).s, j - 1, n - 1, goal)
  {
    if j > 0 {
      var s1 := s.(queue := Rotate(s.queue));
      assert LoopTurn(s) == Again(s1);
      assert forall i | 0 <= i < |s.queue| - 1 :: s1.queue[i] == s.queue[i + 1];
    }
  }

  /** The two halves of a decision. */
  lemma ScheduleStep(s: Sys)
    requires Inv(s) && s.enabled
    ensures var r := Loop(s, |s.queue|);
      && r.Dispatch? && Switch(r.s, r.next) == Scheduling.Schedule(s)
      && Scheduling.Schedule(s).Some? && Inv(Scheduling.Schedule(s).value)
  {
    var _ := TickKeeps(s);
  }
}

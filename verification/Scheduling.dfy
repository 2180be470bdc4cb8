/** Round robin scheduling, task exit and reaping as a state machine over the run
    list, the task list and the task table. */
module Scheduling {
  import opened Wrappers
  import opened LinkedLists

  // ------------------------------------------------------------- the state

  datatype TaskState = Running | Killed

  datatype Task = Task(state: TaskState, irqWait: bool, process: Option<nat>)

  /** tasks and processes that have not been freed, the run list, the task list
      the cleanup task goes through, and the running task. */
  datatype Sys = Sys(
    tasks: map<nat, Task>,
    dead: set<nat>,
    queue: seq<nat>,
    current: Option<nat>,
    all: seq<nat>,
    enabled: bool,
    nextTid: nat,
    nextPid: nat)

  /** The first two tasks, which never exit. */
  const CLEANUP: nat := 1
  const IDLE: nat := 2

  const KERNEL_TASK: Task := Task(Running, false, None)

  /** sched_init: the cleanup task goes first into the run list, then the idle task. */
  function Init(): Sys {
    Sys(map[CLEANUP := KERNEL_TASK, IDLE := KERNEL_TASK], {}, [CLEANUP, IDLE], None, [CLEANUP, IDLE], false, 3, 1)
  }

  // ------------------------------------------------------- get_next_task

  /** Killed, or belonging to a killed process. */
  predicate Doomed(s: Sys, t: nat) {
    t in s.tasks &&
    (s.tasks[t].state == Killed || (s.tasks[t].process.Some? && s.tasks[t].process.value in s.dead))
  }

  predicate Ready(s: Sys, t: nat) {
    t in s.tasks && !Doomed(s, t) && !s.tasks[t].irqWait && s.tasks[t].state == Running
  }

  /** What one turn of the loop comes to: a failed assertion, another turn, or a choice. */
  datatype Turn = Panic | Again(s: Sys) | Dispatch(next: nat, s: Sys)

  /** task_schedulable: a task of a killed process is killed, and for a killed task the
      running task, whichever it is, leaves the run list. */
  function Schedulable(s: Sys, t: nat): Turn
    requires t in s.tasks
  {
    if !Doomed(s, t) then
      if Ready(s, t) then Dispatch(t, s) else Again(s)
    else if s.current.None? || s.current.value !in s.queue then Panic
    else Again(s.(tasks := s.tasks[t := s.tasks[t].(state := Killed)],
                  queue := RemoveAt(s.queue, IndexOf(s.queue, s.current.value))))
  }

  /** One turn of the loop of get_next_task. */
  function LoopTurn(s: Sys): Turn {
    if s.queue == [] || s.queue[0] !in s.tasks then Panic
    else Schedulable(s.(queue := Rotate(s.queue)), s.queue[0])
  }

  /** The loop cut off after n + 1 turns. */
  function Loop(s: Sys, n: nat): Turn
    decreases n
  {
    match LoopTurn(s)
    case Again(s') => if n == 0 then Again(s') else Loop(s', n - 1)
    case other => other
  }

  function RotateBy<T>(q: seq<T>, k: nat): seq<T>
    requires k <= |q|
  {
    q[k..] + q[..k]
  }

  /** j is the position of the first task that can run. */
  predicate FirstReady(s: Sys, j: nat) {
    j < |s.queue| && Ready(s, s.queue[j]) && forall i | 0 <= i < j :: !Ready(s, s.queue[i])
  }

  predicate NoneDoomed(s: Sys, j: nat) {
    j <= |s.queue| && forall i | 0 <= i < j :: !Doomed(s, s.queue[i])
  }

  predicate Known(s: Sys) {
    forall i | 0 <= i < |s.queue| :: s.queue[i] in s.tasks
  }

  /** With no killed task in front, the loop ends at the first task that can run and
      has only rotated the list. */
  lemma {:induction false} LoopRotates(s: Sys, j: nat, n: nat)
    requires Known(s) && FirstReady(s, j) && NoneDoomed(s, j) && n >= j
    ensures Loop(s, n) == Dispatch(s.queue[j], s.(queue := RotateBy(s.queue, j + 1)))
    decreases j
  {
    var s1 := s.(queue := Rotate(s.queue));
    assert Rotate(s.queue) == RotateBy(s.queue, 1);
    if j > 0 {
      assert LoopTurn(s) == Again(s1);
      forall i | 0 <= i < j
        ensures i < j - 1 ==> s1.queue[i] == s.queue[i + 1]
      {
      }
      LoopRotates(s1, j - 1, n - 1);
      assert RotateBy(s1.queue, j) == RotateBy(s.queue, j + 1);
    }
  }

  function Elems(q: seq<nat>): set<nat> {
    set t | t in q
  }

  // -------------------------------------------------------------- schedule

  /** The end of schedule: a killed task leaves the run list when it is switched away from. */
  function Switch(s: Sys, next: nat): Option<Sys> {
    if s.current == Some(next) then Some(s)
    else if s.current.Some? && s.current.value in s.tasks && s.tasks[s.current.value].state == Killed then
      if s.current.value !in s.queue then None
      else Some(s.(queue := RemoveAt(s.queue, IndexOf(s.queue, s.current.value)), current := Some(next)))
    else Some(s.(current := Some(next)))
  }

  /** schedule, or None when the kernel stops or the loop goes round the list in vain. */
  function Schedule(s: Sys): Option<Sys> {
    if !s.enabled then Some(s)
    else
      match Loop(s, |s.queue|)
      case Dispatch(next, s') => Switch(s', next)
      case _ => None
  }

  // ------------------------------------------------------------- the steps

  datatype Op =
    | Enable
    | Tick
    | Create(user: bool)
    | Insert(t: nat)
    | Kill
    | Exit
    | Wait
    | Signal(t: nat)
    | Reap(t: nat)

  /** What the callers see to: only the running task exits or waits, a user task exits
      with its process, the two system tasks do not exit and the idle task does not
      wait, a new task is inserted once, and the cleanup task reaps what it finds
      killed in the task list. */
  predicate Enabled(s: Sys, op: Op) {
    match op
    case Enable => true
    case Tick => true
    case Create(_) => true
    case Insert(t) => t in s.tasks && t !in s.queue && !Doomed(s, t)
    case Kill => Lives(s) && s.tasks[s.current.value].process.None?
    case Exit => Lives(s) && s.tasks[s.current.value].process.Some?
    case Wait => s.current.Some? && s.current.value in s.tasks && s.current.value != IDLE
    case Signal(t) => t in s.tasks
    case Reap(t) => s.current == Some(CLEANUP) && t in s.all && t in s.tasks && s.tasks[t].state == Killed
  }

  predicate Lives(s: Sys) {
    && s.current.Some? && s.current.value in s.tasks && s.current.value != IDLE && s.current.value != CLEANUP
    && !Doomed(s, s.current.value)
  }

  function SetTask(s: Sys, t: nat, task: Task): Sys {
    s.(tasks := s.tasks[t := task])
  }

  function KillCurrent(s: Sys): Sys
    requires s.current.Some? && s.current.value in s.tasks
  {
    SetTask(s, s.current.value, s.tasks[s.current.value].(state := Killed))
  }

  /** The write of sys_exit that comes before task_kill. */
  function MarkProcess(s: Sys): Sys
    requires s.current.Some? && s.current.value in s.tasks && s.tasks[s.current.value].process.Some?
  {
    s.(dead := s.dead + {s.tasks[s.current.value].process.value})
  }

  function Apply(s: Sys, op: Op): Option<Sys>
    requires Enabled(s, op)
  {
    match op
    case Enable => Some(s.(enabled := true))
    case Tick => Schedule(s)
    case Create(user) =>
      Some(Sys(s.tasks[s.nextTid := Task(Running, false, if user then Some(s.nextPid) else None)],
               s.dead, s.queue, s.current, s.all + [s.nextTid], s.enabled,
               s.nextTid + 1, if user then s.nextPid + 1 else s.nextPid))
    case Insert(t) => Some(s.(queue := s.queue + [t]))
    case Kill => Some(KillCurrent(s))
    case Exit => Some(KillCurrent(MarkProcess(s)))
    case Wait => Some(SetTask(s, s.current.value, s.tasks[s.current.value].(irqWait := true)))
    case Signal(t) => Some(SetTask(s, t, s.tasks[t].(irqWait := false)))
    case Reap(t) => Some(s.(tasks := s.tasks - {t}, all := RemoveAt(s.all, IndexOf(s.all, t))))
  }

  // --------------------------------------------------------- the invariant

  predicate Unique(q: seq<nat>) {
    forall i, j | 0 <= i < j < |q| :: q[i] != q[j]
  }

  predicate Immortal(s: Sys, t: nat) {
    t in s.tasks && s.tasks[t].state == Running && s.tasks[t].process.None?
  }

  /** In the run list, the idle task does not come after the running task. */
  predicate IdleFirst(s: Sys) {
    s.current.Some? ==>
      s.current.value in s.queue && IndexOf(s.queue, IDLE) <= IndexOf(s.queue, s.current.value)
  }

  predicate OneThread(s: Sys, t: nat)
    requires t in s.tasks
  {
    && t < s.nextTid
    && (s.tasks[t].process.Some? ==> s.tasks[t].process.value < s.nextPid)
    && (s.tasks[t].process.Some? && s.tasks[t].process.value in s.dead ==> s.tasks[t].state == Killed)
  }

  ghost predicate Inv(s: Sys) {
    && Immortal(s, IDLE) && !s.tasks[IDLE].irqWait && Immortal(s, CLEANUP) && IDLE in s.queue
    && Known(s) && Unique(s.queue) && Unique(s.all) && Elems(s.all) == s.tasks.Keys
    && IdleFirst(s) && (s.current.Some? ==> s.enabled)
    && (forall t | t in s.tasks :: OneThread(s, t))
    && (forall t, u | t in s.tasks && u in s.tasks && t != u && s.tasks[t].process.Some? ::
          s.tasks[t].process != s.tasks[u].process)
    && (forall p | p in s.dead :: p < s.nextPid)
    // a killed task in the run list is the running one
    && (forall t | t in s.queue && t in s.tasks && s.tasks[t].state == Killed :: s.current == Some(t))
  }

  // ------------------------------------------------------ what a tick does

  lemma UniqueIndex(q: seq<nat>, k: nat)
    requires Unique(q) && k < |q|
    ensures IndexOf(q, q[k]) == k
  {
    FirstIs(q, q[k], k);
  }

  /** The run list after task j of q is dispatched and `gone`, if in the list, has left it. */
  function After(q: seq<nat>, j: nat, gone: Option<nat>): seq<nat>
    requires j < |q|
  {
    var r := RotateBy(q, j + 1);
    if gone.Some? && gone.value in r then RemoveAt(r, IndexOf(r, gone.value)) else r
  }

  /** The running task, if it is killed. */
  function Leaver(s: Sys): Option<nat> {
    if s.current.Some? && s.current.value in s.tasks && s.tasks[s.current.value].state == Killed then s.current
    else None
  }

  lemma RotatedUnique(q: seq<nat>, k: nat)
    requires Unique(q) && k <= |q|
    ensures Unique(RotateBy(q, k)) && Elems(RotateBy(q, k)) == Elems(q)
  {
    var r := RotateBy(q, k);
    forall t | t in q
      ensures t in r
    {
      var i :| 0 <= i < |q| && q[i] == t;
      assert r[if i < k then i + |q| - k else i - k] == t;
    }
  }

  lemma RemovedIndex(q: seq<nat>, i: nat)
    requires i < |q|
    ensures var r := RemoveAt(q, i);
      |r| == |q| - 1 && forall k | 0 <= k < |r| :: r[k] == q[if k < i then k else k + 1]
  {
  }

  lemma RemovedUnique(q: seq<nat>, i: nat)
    requires Unique(q) && i < |q|
    ensures Unique(RemoveAt(q, i)) && q[i] !in RemoveAt(q, i)
  {
    RemovedIndex(q, i);
  }

  lemma RemovedElems(q: seq<nat>, t: nat)
    requires Unique(q) && t in q
    ensures var r := RemoveAt(q, IndexOf(q, t)); Unique(r) && Elems(r) == Elems(q) - {t} && |r| == |q| - 1
  {
    var i := IndexOf(q, t);
    RemovedUnique(q, i);
    RemovedIndex(q, i);
    forall u | u in q && u != t
      ensures u in RemoveAt(q, i)
    {
      RemovedKeeps(q, i, u);
    }
  }

  lemma RemovedKeeps(q: seq<nat>, i: nat, u: nat)
    requires i < |q| && u in q && u != q[i]
    ensures u in RemoveAt(q, i)
  {
    var k :| 0 <= k < |q| && q[k] == u;
    assert RemoveAt(q, i)[if k < i then k else k - 1] == u;
  }

  /** The new run list holds the same tasks but the one that left, and ends with the
      one dispatched. */
  lemma AfterQueue(q: seq<nat>, j: nat, gone: Option<nat>)
    requires Unique(q) && j < |q| && gone != Some(q[j])
    ensures var r := After(q, j, gone);
      && Unique(r) && Elems(r) == Elems(q) - (if gone.Some? then {gone.value} else {})
      && r != [] && r[|r| - 1] == q[j]
  {
    RotatedUnique(q, j + 1);
    DropFrom(RotateBy(q, j + 1), gone, After(q, j, gone));
  }

  lemma DropFrom(r: seq<nat>, gone: Option<nat>, a: seq<nat>)
    requires Unique(r) && r != [] && gone != Some(r[|r| - 1])
    requires a == if gone.Some? && gone.value in r then RemoveAt(r, IndexOf(r, gone.value)) else r
    ensures
      && Unique(a) && Elems(a) == Elems(r) - (if gone.Some? then {gone.value} else {})
      && a != [] && a[|a| - 1] == r[|r| - 1]
  {
    if gone.Some? {
      assert gone.value in r <==> gone.value in Elems(r);
      if gone.value in r {
        RemovedElems(r, gone.value);
        RemovedIndex(r, IndexOf(r, gone.value));
      }
    }
  }

  /** A task behind the dispatched one moves up by at least one place. */
  lemma MovesUp(q: seq<nat>, j: nat, gone: Option<nat>, t: nat, k: nat)
    requires Unique(q) && j < k < |q| && q[k] == t && gone != Some(t) && gone != Some(q[j])
    ensures t in After(q, j, gone) && IndexOf(After(q, j, gone), t) < k
  {
    var r := RotateBy(q, j + 1);
    RotatedUnique(q, j + 1);
    var i := k - (j + 1);
    assert r[i] == q[k];
    if gone.Some? && gone.value in r {
      var g := IndexOf(r, gone.value);
      var a := RemoveAt(r, g);
      RemovedElems(r, gone.value);
      var i' := if i < g then i else i - 1;
      assert a[i'] == q[k];
      UniqueIndex(a, i');
    } else {
      UniqueIndex(r, i);
    }
  }

  /** Some task can run, at the latest the idle task, and no killed task stands before it. */
  lemma SomeReady(s: Sys) returns (j: nat)
    requires Inv(s)
    ensures FirstReady(s, j) && NoneDoomed(s, j) && j <= IndexOf(s.queue, IDLE)
  {
    var i := IndexOf(s.queue, IDLE);
    assert OneThread(s, IDLE);
    j := 0;
    while !Ready(s, s.queue[j])
      invariant j <= i && forall k | 0 <= k < j :: !Ready(s, s.queue[k])
      decreases i - j
    {
      j := j + 1;
    }
    forall k | 0 <= k < j
      ensures !Doomed(s, s.queue[k])
    {
      NotDoomedBefore(s, k);
    }
  }

  lemma NotDoomedBefore(s: Sys, k: nat)
    requires Inv(s) && k < IndexOf(s.queue, IDLE)
    ensures !Doomed(s, s.queue[k])
  {
    var t := s.queue[k];
    assert OneThread(s, t);
    UniqueIndex(s.queue, k);
  }

  /** schedule under the invariant: it dispatches the first task that can run, and of
      the run list only a killed running task is missing afterwards. */
  lemma TickExactly(s: Sys, j: nat)
    requires Inv(s) && s.enabled && FirstReady(s, j) && NoneDoomed(s, j)
    ensures Leaver(s) != Some(s.queue[j])
    ensures Schedule(s) == Some(s.(queue := After(s.queue, j, Leaver(s)), current := Some(s.queue[j])))
  {
    LoopRotates(s, j, |s.queue|);
    RotatedUnique(s.queue, j + 1);
    var s1 := s.(queue := RotateBy(s.queue, j + 1));
    if s.current.Some? {
      assert s.current.value in Elems(s.queue);
    }
    if s.current == Some(s.queue[j]) {
      assert Switch(s1, s.queue[j]) == Some(s1);
    }
  }

  /** A run list with the same tasks but the one that left, the dispatched one last. */
  lemma SwitchedInv(s: Sys, q: seq<nat>)
    requires Inv(s) && s.enabled && Unique(q) && q != [] && Leaver(s) != Some(IDLE)
    requires Elems(q) == Elems(s.queue) - (if Leaver(s).Some? then {Leaver(s).value} else {})
    ensures Inv(s.(queue := q, current := Some(q[|q| - 1])))
  {
    var s' := s.(queue := q, current := Some(q[|q| - 1]));
    UniqueIndex(q, |q| - 1);
    forall t | t in q
      ensures t in s.queue && t in s.tasks && s.tasks[t].state != Killed
    {
      assert t in Elems(q);
    }
    assert IDLE in q by {
      assert IDLE in Elems(s.queue);
      assert IDLE in Elems(q);
    }
    forall t | t in s'.tasks
      ensures OneThread(s', t)
    {
      assert OneThread(s, t);
    }
  }

  lemma TickKeeps(s: Sys) returns (j: nat)
    requires Inv(s) && s.enabled
    ensures FirstReady(s, j) && NoneDoomed(s, j)
    ensures Schedule(s) == Some(s.(queue := After(s.queue, j, Leaver(s)), current := Some(s.queue[j])))
    ensures Inv(Schedule(s).value)
  {
    j := SomeReady(s);
    TickExactly(s, j);
    AfterQueue(s.queue, j, Leaver(s));
    SwitchedInv(s, After(s.queue, j, Leaver(s)));
  }
}
